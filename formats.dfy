/**
 * The format filter/ranker `filter_video_formats`: from the extractor's list of format
 * dictionaries keep the video-only MP4 streams at an allowed height with a known size,
 * one per height (the first one met wins), best quality first.
 */
module Formats {
  import opened Optional

  /**
   * One format dictionary. `None` stands for an absent key; for every key but `format_id` a key
   * holding None behaves the same under `.get`. A present `'format_id': None` is read as absent.
   */
  datatype Format = Format(
    formatId: Option<string>,
    vcodec: Option<string>,
    acodec: Option<string>,
    ext: Option<string>,
    height: Option<int>,
    filesize: Option<int>,
    filesizeApprox: Option<int>)

  /** One kept format: `{'format_id': …, 'height': …, 'filesize': …}`. */
  datatype Entry = Entry(formatId: string, height: int, filesize: int)

  const AllowedHeights: set<int> := {360, 480, 720, 1080}

  /** Python truthiness of an optional number: present and non-zero. */
  predicate Truthy(v: Option<int>) {
    v.Some? && v.value != 0
  }

  /** `fmt.get('filesize') or fmt.get('filesize_approx')`. */
  function KnownSize(f: Format): Option<int> {
    if Truthy(f.filesize) then f.filesize else f.filesizeApprox
  }

  /** A video stream without audio in an MP4 container (a missing vcodec counts as video). */
  predicate IsVideoOnlyMp4(f: Format) {
    f.vcodec != Some("none") && f.acodec == Some("none") && f.ext == Some("mp4")
  }

  /** Every test the loop applies to a format before its "already seen" test. */
  predicate Admitted(f: Format) {
    IsVideoOnlyMp4(f) && f.height.Some? && f.height.value in AllowedHeights && Truthy(KnownSize(f))
  }

  /** No admitted format before index `i` has the height of `fs[i]`. */
  predicate FirstAt(fs: seq<Format>, i: nat)
    requires i < |fs|
  {
    forall j :: 0 <= j < i && Admitted(fs[j]) ==> fs[j].height != fs[i].height
  }

  function EntryOf(f: Format): Entry
    requires Admitted(f) && f.formatId.Some?
  {
    Entry(f.formatId.value, f.height.value, KnownSize(f).value)
  }

  /** The set of heights of a list of entries (the loop's `seen_heights`). */
  function Heights(s: seq<Entry>): set<int> {
    if s == [] then {} else {s[0].height} + Heights(s[1..])
  }

  predicate DistinctHeights(s: seq<Entry>) {
    forall i, j :: 0 <= i < j < |s| ==> s[i].height != s[j].height
  }

  predicate Descending(s: seq<Entry>) {
    forall i, j :: 0 <= i < j < |s| ==> s[i].height >= s[j].height
  }

  predicate StrictlyDescending(s: seq<Entry>) {
    forall i, j :: 0 <= i < j < |s| ==> s[i].height > s[j].height
  }

  /** The loop meets an admitted, first-at-its-height format without a `format_id`: `fmt['format_id']` raises KeyError. */
  predicate Raises(fs: seq<Format>) {
    exists i :: 0 <= i < |fs| && Admitted(fs[i]) && FirstAt(fs, i) && fs[i].formatId.None?
  }

  /** `e` is the entry built from `fs[i]`, the first admitted format at its height. */
  predicate IsFirstEntry(fs: seq<Format>, i: int, e: Entry) {
    0 <= i < |fs| && Admitted(fs[i]) && FirstAt(fs, i) && fs[i].formatId.Some? && e == EntryOf(fs[i])
  }

  /** `e` comes from the first admitted format at its height. */
  ghost predicate FromFirst(fs: seq<Format>, e: Entry) {
    exists i :: IsFirstEntry(fs, i, e)
  }

  /** Every entry is the entry of the first admitted format at its height. */
  ghost predicate Sound(fs: seq<Format>, k: seq<Entry>) {
    forall m :: 0 <= m < |k| ==> FromFirst(fs, k[m])
  }

  /** Every first admitted format is kept, and every admitted height is represented. */
  predicate Complete(fs: seq<Format>, k: seq<Entry>) {
    && (forall i :: 0 <= i < |fs| && Admitted(fs[i]) && FirstAt(fs, i) && fs[i].formatId.Some? ==> EntryOf(fs[i]) in k)
    && (forall i :: 0 <= i < |fs| && Admitted(fs[i]) ==> fs[i].height.value in Heights(k))
  }

  /**
   * The list `filtered` after the loop has read all of `fs`, in input order;
   * None when the loop raises KeyError.
   */
  function Kept(fs: seq<Format>): Option<seq<Entry>> {
    if fs == [] then Some([])
    else
      var f := fs[|fs| - 1];
      match Kept(fs[..|fs| - 1])
      case None => None
      case Some(prev) =>
        if Admitted(f) && f.height.value !in Heights(prev) then
          if f.formatId.None? then None else Some(prev + [EntryOf(f)])
        else Some(prev)
  }

  /** Stable insertion of `e` into a list sorted by height, highest first. */
  function InsertByHeight(e: Entry, s: seq<Entry>): (r: seq<Entry>)
    ensures multiset(r) == multiset(s) + multiset{e}
    ensures Heights(r) == Heights(s) + {e.height}
  {
    if s == [] then [e]
    else if s[0].height <= e.height then
      assert ([e] + s)[1..] == s;
      [e] + s
    else
      var rest := InsertByHeight(e, s[1..]);
      assert s == [s[0]] + s[1..];
      assert ([s[0]] + rest)[1..] == rest;
      [s[0]] + rest
  }

  lemma InsertedFrom(e: Entry, s: seq<Entry>, x: Entry)
    requires x in InsertByHeight(e, s)
    ensures x == e || x in s
  {
    assert x in multiset(InsertByHeight(e, s));
  }

  lemma {:induction false} InsertKeepsOrder(e: Entry, s: seq<Entry>)
    requires Descending(s)
    ensures Descending(InsertByHeight(e, s))
  {
    if s != [] && s[0].height > e.height {
      var rest := InsertByHeight(e, s[1..]);
      InsertKeepsOrder(e, s[1..]);
      var r := [s[0]] + rest;
      forall i, j | 0 <= i < j < |r|
        ensures r[i].height >= r[j].height
      {
        InsertedFrom(e, s[1..], rest[j - 1]);
        if i > 0 {
          assert r[i] == rest[i - 1];
        }
      }
    }
  }

  lemma {:induction false} InsertKeepsStrictOrder(e: Entry, s: seq<Entry>)
    requires StrictlyDescending(s) && e.height !in Heights(s)
    ensures StrictlyDescending(InsertByHeight(e, s))
  {
    if s == [] {
    } else if s[0].height <= e.height {
      HeightsHead(s);
    } else {
      var rest := InsertByHeight(e, s[1..]);
      assert e.height !in Heights(s[1..]);
      InsertKeepsStrictOrder(e, s[1..]);
      var r := [s[0]] + rest;
      forall i, j | 0 <= i < j < |r|
        ensures r[i].height > r[j].height
      {
        InsertedFrom(e, s[1..], rest[j - 1]);
        if i > 0 {
          assert r[i] == rest[i - 1];
        }
      }
    }
  }

  /** `sorted(filtered, key=lambda x: x['height'], reverse=True)`. */
  function SortByHeight(s: seq<Entry>): (r: seq<Entry>)
    ensures Descending(r)
    ensures multiset(r) == multiset(s)
    ensures Heights(r) == Heights(s)
    ensures DistinctHeights(s) ==> StrictlyDescending(r)
  {
    if s == [] then []
    else
      var rest := SortByHeight(s[1..]);
      assert s == [s[0]] + s[1..];
      DistinctTail(s);
      InsertKeepsOrder(s[0], rest);
      if DistinctHeights(s) then
        InsertKeepsStrictOrder(s[0], rest);
        InsertByHeight(s[0], rest)
      else
        InsertByHeight(s[0], rest)
  }

  /** What `filter_video_formats` returns; None when it raises KeyError. */
  function Ranked(fs: seq<Format>): Option<seq<Entry>> {
    match Kept(fs)
    case None => None
    case Some(k) => Some(SortByHeight(k))
  }

  lemma DistinctTail(s: seq<Entry>)
    requires s != []
    ensures DistinctHeights(s) ==> DistinctHeights(s[1..]) && s[0].height !in Heights(s[1..])
  {
    if DistinctHeights(s) {
      forall i, j | 0 <= i < j < |s[1..]| ensures s[1..][i].height != s[1..][j].height {
        assert s[1..][i] == s[i + 1] && s[1..][j] == s[j + 1];
      }
      HeightsMember(s[1..], s[0].height);
    }
  }

  lemma HeightsHead(s: seq<Entry>)
    requires s != []
    ensures s[0].height in Heights(s)
  {
  }

  lemma {:induction false} HeightsMember(s: seq<Entry>, h: int)
    ensures h in Heights(s) <==> exists m :: 0 <= m < |s| && s[m].height == h
  {
    if s != [] {
      HeightsMember(s[1..], h);
      if h in Heights(s[1..]) {
        var m :| 0 <= m < |s[1..]| && s[1..][m].height == h;
        assert s[m + 1].height == h;
      }
      if exists m :: 0 <= m < |s| && s[m].height == h {
        var m :| 0 <= m < |s| && s[m].height == h;
        if m > 0 {
          assert s[1..][m - 1].height == h;
        }
      }
    }
  }

  lemma {:induction false} HeightsAppend(s: seq<Entry>, e: Entry)
    ensures Heights(s + [e]) == Heights(s) + {e.height}
  {
    if s != [] {
      assert (s + [e])[1..] == s[1..] + [e];
      HeightsAppend(s[1..], e);
    }
  }

  lemma {:induction false} DistinctHeightsCount(s: seq<Entry>)
    requires DistinctHeights(s)
    ensures |Heights(s)| == |s|
  {
    if s != [] {
      DistinctTail(s);
      DistinctHeightsCount(s[1..]);
    }
  }

  lemma {:induction false} AllowedSubsetCount(hs: set<int>)
    requires hs <= AllowedHeights
    ensures |hs| <= 4
  {
    var rest := AllowedHeights - hs;
    assert AllowedHeights == hs + rest;
    assert |AllowedHeights| == 4;
  }

  /** First-at-its-height looks only backwards, so a longer input does not change it. */
  lemma FirstAtPrefix(fs: seq<Format>, n: nat, i: nat)
    requires i < n <= |fs|
    ensures fs[..n][i] == fs[i] && (FirstAt(fs[..n], i) <==> FirstAt(fs, i))
  {
    assert forall j :: 0 <= j <= i ==> fs[..n][j] == fs[j];
  }

  lemma RaisesExtends(fs: seq<Format>)
    requires fs != [] && Raises(fs[..|fs| - 1])
    ensures Raises(fs)
  {
    var n := |fs| - 1;
    var i :| 0 <= i < n && Admitted(fs[..n][i]) && FirstAt(fs[..n], i) && fs[..n][i].formatId.None?;
    FirstAtPrefix(fs, n, i);
    assert Admitted(fs[i]) && FirstAt(fs, i) && fs[i].formatId.None?;
  }

  /** Given what the loop kept so far, a height is already seen exactly when the new format is not the first at it. */
  lemma SeenIffNotFirst(fs: seq<Format>, prev: seq<Entry>)
    requires fs != []
    requires Sound(fs[..|fs| - 1], prev) && Complete(fs[..|fs| - 1], prev)
    requires Admitted(fs[|fs| - 1])
    ensures fs[|fs| - 1].height.value in Heights(prev) <==> !FirstAt(fs, |fs| - 1)
  {
    var n := |fs| - 1;
    var init, h := fs[..n], fs[n].height.value;
    HeightsMember(prev, h);
    if h in Heights(prev) {
      var m :| 0 <= m < |prev| && prev[m].height == h;
      var i :| IsFirstEntry(init, i, prev[m]);
      assert init[i] == fs[i];
      assert fs[i].height == fs[n].height;
    } else {
      forall j | 0 <= j < n && Admitted(fs[j])
        ensures fs[j].height != fs[n].height
      {
        assert init[j] == fs[j];
        assert init[j].height.value in Heights(prev);
      }
    }
  }

  lemma SoundStep(fs: seq<Format>, prev: seq<Entry>, added: bool, k: seq<Entry>)
    requires fs != [] && Sound(fs[..|fs| - 1], prev)
    requires added ==> Admitted(fs[|fs| - 1]) && FirstAt(fs, |fs| - 1) && fs[|fs| - 1].formatId.Some?
    requires k == if added then prev + [EntryOf(fs[|fs| - 1])] else prev
    ensures Sound(fs, k)
  {
    var n := |fs| - 1;
    var init := fs[..n];
    forall m | 0 <= m < |k|
      ensures FromFirst(fs, k[m])
    {
      if m < |prev| {
        var i :| IsFirstEntry(init, i, prev[m]);
        FirstAtPrefix(fs, n, i);
        assert k[m] == prev[m];
        assert IsFirstEntry(fs, i, k[m]);
      } else {
        assert IsFirstEntry(fs, n, k[m]);
      }
    }
  }

  lemma CompleteStep(fs: seq<Format>, prev: seq<Entry>, added: bool, k: seq<Entry>)
    requires fs != [] && Complete(fs[..|fs| - 1], prev)
    requires added ==> Admitted(fs[|fs| - 1]) && fs[|fs| - 1].formatId.Some?
    requires Admitted(fs[|fs| - 1]) && FirstAt(fs, |fs| - 1) && fs[|fs| - 1].formatId.Some? ==> added
    requires Admitted(fs[|fs| - 1]) && !added ==> fs[|fs| - 1].height.value in Heights(prev)
    requires k == if added then prev + [EntryOf(fs[|fs| - 1])] else prev
    ensures Complete(fs, k)
  {
    var n := |fs| - 1;
    var init := fs[..n];
    if added {
      HeightsAppend(prev, EntryOf(fs[n]));
    }
    forall i | 0 <= i < |fs| && Admitted(fs[i]) && FirstAt(fs, i) && fs[i].formatId.Some?
      ensures EntryOf(fs[i]) in k
    {
      if i < n {
        FirstAtPrefix(fs, n, i);
        assert Admitted(init[i]) && FirstAt(init, i);
      } else {
        assert k[|prev|] == EntryOf(fs[n]);
      }
    }
    forall i | 0 <= i < |fs| && Admitted(fs[i])
      ensures fs[i].height.value in Heights(k)
    {
      if i < n {
        assert init[i] == fs[i];
        assert Admitted(init[i]);
      }
    }
  }

  lemma DistinctStep(prev: seq<Entry>, e: Entry)
    requires DistinctHeights(prev) && e.height !in Heights(prev)
    ensures DistinctHeights(prev + [e])
  {
    HeightsMember(prev, e.height);
    var k := prev + [e];
    forall a, b | 0 <= a < b < |k|
      ensures k[a].height != k[b].height
    {
      assert k[a] == prev[a];
      if b < |prev| {
        assert k[b] == prev[b];
      }
    }
  }

  /**
   * What the loop of `filter_video_formats` computes, characterised without the loop:
   * it raises exactly when a first-at-its-height admitted format lacks a `format_id`;
   * otherwise it keeps exactly the first admitted format at each height, one entry per height.
   */
  lemma {:induction false} KeptCharacterized(fs: seq<Format>)
    ensures Kept(fs).None? <==> Raises(fs)
    ensures Kept(fs).Some? ==> Sound(fs, Kept(fs).value) && Complete(fs, Kept(fs).value)
    ensures Kept(fs).Some? ==> DistinctHeights(Kept(fs).value)
  {
    if fs == [] {
      return;
    }
    var n := |fs| - 1;
    var init, f := fs[..n], fs[n];
    KeptCharacterized(init);
    match Kept(init)
    case None =>
      RaisesExtends(fs);
    case Some(prev) =>
      if Admitted(f) {
        SeenIffNotFirst(fs, prev);
      }
      var added := Admitted(f) && f.height.value !in Heights(prev);
      if added && f.formatId.None? {
        assert Admitted(fs[n]) && FirstAt(fs, n) && fs[n].formatId.None?;
      } else {
        var k := if added then prev + [EntryOf(f)] else prev;
        assert Kept(fs) == Some(k);
        forall i | 0 <= i < |fs| && Admitted(fs[i]) && FirstAt(fs, i)
          ensures fs[i].formatId.Some?
        {
          if i < n {
            FirstAtPrefix(fs, n, i);
            assert Admitted(init[i]) && FirstAt(init, i);
          }
        }
        SoundStep(fs, prev, added, k);
        CompleteStep(fs, prev, added, k);
        if added {
          DistinctStep(prev, EntryOf(f));
        }
      }
  }

  lemma SortedSound(fs: seq<Format>, k: seq<Entry>, r: seq<Entry>)
    requires Sound(fs, k) && multiset(r) == multiset(k)
    ensures Sound(fs, r)
  {
    forall m | 0 <= m < |r|
      ensures FromFirst(fs, r[m])
    {
      assert r[m] in multiset(k);
      var m' :| 0 <= m' < |k| && k[m'] == r[m];
      var i :| IsFirstEntry(fs, i, k[m']);
      assert IsFirstEntry(fs, i, r[m]);
    }
  }

  lemma SortedComplete(fs: seq<Format>, k: seq<Entry>, r: seq<Entry>)
    requires Complete(fs, k) && multiset(r) == multiset(k) && Heights(r) == Heights(k)
    ensures Complete(fs, r)
  {
    forall e | e in k ensures e in r {
      assert e in multiset(r);
    }
  }

  lemma {:induction false} SoundBounded(fs: seq<Format>, k: seq<Entry>)
    requires Sound(fs, k) && DistinctHeights(k)
    ensures |k| <= 4
    ensures forall e :: e in k ==> e.height in AllowedHeights && e.filesize != 0
  {
    forall e | e in k ensures e.height in AllowedHeights && e.filesize != 0 {
      var m :| 0 <= m < |k| && k[m] == e;
      var i :| IsFirstEntry(fs, i, k[m]);
    }
    assert Heights(k) <= AllowedHeights by {
      forall h | h in Heights(k) ensures h in AllowedHeights {
        HeightsMember(k, h);
        var m :| 0 <= m < |k| && k[m].height == h;
        var i :| IsFirstEntry(fs, i, k[m]);
      }
    }
    DistinctHeightsCount(k);
    AllowedSubsetCount(Heights(k));
  }

  /**
   * `filter_video_formats`: None when it raises KeyError on a missing `format_id`;
   * otherwise the first admitted format at each height, strictly descending by height,
   * at most four entries.
   */
  lemma RankedProperties(fs: seq<Format>)
    ensures Ranked(fs).None? <==> Raises(fs)
    ensures Ranked(fs).Some? ==>
      var r := Ranked(fs).value;
      && StrictlyDescending(r)
      && |r| <= 4
      && Sound(fs, r)
      && Complete(fs, r)
      && (forall e :: e in r ==> e.height in AllowedHeights && e.filesize != 0)
  {
    KeptCharacterized(fs);
    if Kept(fs).Some? {
      var k := Kept(fs).value;
      var r := SortByHeight(k);
      assert |r| == |k| by {
        assert |multiset(r)| == |multiset(k)|;
      }
      SortedSound(fs, k, r);
      SortedComplete(fs, k, r);
      SoundBounded(fs, r);
      assert DistinctHeights(r) by {
        assert StrictlyDescending(r);
      }
    }
  }

  /** The filter loop of `filter_video_formats`, then its sort. */
  method FilterVideoFormats(formats: seq<Format>) returns (r: Option<seq<Entry>>)
    ensures r == Ranked(formats)
    ensures r.None? <==> Raises(formats)
    ensures r.Some? ==> StrictlyDescending(r.value) && |r.value| <= 4
    ensures r.Some? ==> Sound(formats, r.value) && Complete(formats, r.value)
  {
    var filtered: seq<Entry> := [];
    var seen: set<int> := {};
    var i := 0;
    while i < |formats|
      invariant 0 <= i <= |formats|
      invariant Kept(formats[..i]) == Some(filtered)
      invariant seen == Heights(filtered)
    {
      var fmt := formats[i];
      assert formats[..i + 1][..i] == formats[..i];
      if fmt.vcodec != Some("none") && fmt.acodec == Some("none") && fmt.ext == Some("mp4") {
        var height := fmt.height;
        var filesize := if Truthy(fmt.filesize) then fmt.filesize else fmt.filesizeApprox;
        if height.Some? && height.value in AllowedHeights && Truthy(filesize) && height.value !in seen {
          if fmt.formatId.None? {
            // fmt['format_id'] raises KeyError
            KeptStaysNone(formats, i + 1);
            RankedProperties(formats);
            return None;
          }
          HeightsAppend(filtered, Entry(fmt.formatId.value, height.value, filesize.value));
          filtered := filtered + [Entry(fmt.formatId.value, height.value, filesize.value)];
          seen := seen + {height.value};
        }
      }
      i := i + 1;
    }
    assert formats[..i] == formats;
    RankedProperties(formats);
    r := Some(SortByHeight(filtered));
  }

  /** Once the loop has raised, reading more formats does not matter. */
  lemma {:induction false} KeptStaysNone(fs: seq<Format>, n: nat)
    requires n <= |fs| && Kept(fs[..n]).None?
    ensures Kept(fs).None?
    decreases |fs| - n
  {
    if n < |fs| {
      assert fs[..n + 1][..n] == fs[..n];
      KeptStaysNone(fs, n + 1);
    } else {
      assert fs[..n] == fs;
    }
  }

  /** A format whose `filesize` and `filesize_approx` are both missing or zero is never admitted. */
  lemma UnsizedNeverAdmitted(f: Format)
    requires !Truthy(f.filesize) && !Truthy(f.filesizeApprox)
    ensures !Admitted(f)
  {
  }

  /** No formats, no video choices. */
  lemma NoFormatsNoEntries()
    ensures Ranked([]) == Some([])
  {
  }

  /** Two 720p streams and one 480p stream: the first 720p stream wins, and 720 comes before 480. */
  lemma FirstOfDuplicateHeightsWins()
    ensures var mp4 := (id: string, h: int, size: int) =>
        Format(Some(id), Some("avc1"), Some("none"), Some("mp4"), Some(h), Some(size), None);
      Ranked([mp4("a", 720, 5000000), mp4("b", 480, 3000000), mp4("c", 720, 4500000)])
        == Some([Entry("a", 720, 5000000), Entry("b", 480, 3000000)])
  {
    var mp4 := (id: string, h: int, size: int) =>
      Format(Some(id), Some("avc1"), Some("none"), Some("mp4"), Some(h), Some(size), None);
    var fs := [mp4("a", 720, 5000000), mp4("b", 480, 3000000), mp4("c", 720, 4500000)];
    var a, b := Entry("a", 720, 5000000), Entry("b", 480, 3000000);
    assert fs[..1][..0] == [] && fs[..2][..1] == fs[..1] && fs[..3][..2] == fs[..2] && fs[..3] == fs;
    assert Admitted(fs[0]) && Admitted(fs[1]) && Admitted(fs[2]);
    assert EntryOf(fs[0]) == a && EntryOf(fs[1]) == b;
    assert fs[..1][0] == fs[0] && fs[..2][1] == fs[1];
    assert [] + [a] == [a] && [a] + [b] == [a, b];
    assert Kept(fs[..1]) == Some([a]);
    assert Heights([a]) == {720} by {
      assert [a][1..] == [];
    }
    assert Kept(fs[..2]) == Some([a, b]);
    assert Heights([a, b]) == {720, 480} by {
      assert [a, b][1..] == [b];
      assert [b][1..] == [];
    }
    assert Kept(fs) == Some([a, b]);
    assert InsertByHeight(b, []) == [b];
    assert SortByHeight([a, b]) == [a, b] by {
      assert [a, b][1..] == [b];
      assert [b][1..] == [];
    }
  }
}
