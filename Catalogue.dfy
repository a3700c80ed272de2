/** The format catalogue that web_app.py's `/api/formats` builds from the
    format list yt-dlp extracts: pick the first m4a audio-only format, turn
    every mp4 video format with known dimensions into an entry whose size
    includes that audio, add a "Best Quality" entry, sort by (height, fps)
    from the top, and keep the first entry of each resolution label. */
module Catalogue {
  import opened Common
  import opened Decimal
  import opened Sizes
  import opened Formats
  import opened WebApp

  /** Appended to a video format id so that yt-dlp merges in m4a audio. */
  const AudioSuffix: string := "+bestaudio[ext=m4a]/bestaudio"

  /** Height and fps given to the "Best Quality" entry so that it sorts first. */
  const SortSentinel: nat := 99999

  /** One entry of the catalogue. */
  datatype Entry = Entry(
    formatId: string,
    resolution: string,
    ext: string,
    filesize: SizeCell,
    height: nat,
    fps: real)

  const BestEntry: Entry :=
    Entry(DefaultSelector, "Best Quality", "mp4", Placeholder("Automatic"), SortSentinel, SortSentinel as real)

  // ---------------------------------------------------------------------------
  // The audio track every entry is merged with

  /** An audio-only m4a format (a missing acodec counts as audio). */
  predicate IsM4aAudio(f: FormatRecord)
  {
    f.vcodec == Present("none") && f.acodec != Present("none") && f.ext == Present("m4a")
  }

  /** The position of the first audio-only m4a format, if there is one. */
  function FirstAudioIndex(fs: seq<FormatRecord>): (r: Option<nat>)
    ensures r.None? <==> forall i :: 0 <= i < |fs| ==> !IsM4aAudio(fs[i])
    ensures r.Some? ==> r.value < |fs| && IsM4aAudio(fs[r.value])
    ensures r.Some? ==> forall j :: 0 <= j < r.value ==> !IsM4aAudio(fs[j])
  {
    if fs == [] then None
    else if IsM4aAudio(fs[0]) then Some(0)
    else
      match FirstAudioIndex(fs[1..])
      case None => None
      case Some(i) => Some(i + 1)
  }

  function BestAudio(fs: seq<FormatRecord>): Option<FormatRecord>
  {
    match FirstAudioIndex(fs)
    case None => None
    case Some(i) => Some(fs[i])
  }

  /** `filesize`, else `filesize_approx`, else 0 (missing, None and 0 all
      fall through). */
  function SizeOf(f: FormatRecord): nat
  {
    if TruthyNat(f.filesize) then f.filesize.value
    else if TruthyNat(f.filesizeApprox) then f.filesizeApprox.value
    else 0
  }

  function AudioSizeOf(bestAudio: Option<FormatRecord>): nat
  {
    match bestAudio
    case None => 0
    case Some(a) => SizeOf(a)
  }

  function AudioSize(fs: seq<FormatRecord>): nat
  {
    AudioSizeOf(BestAudio(fs))
  }

  // ---------------------------------------------------------------------------
  // One entry per mp4 video format with known dimensions

  /** A format survives the filter: not audio-only (a missing vcodec counts as
      video), non-zero height and width, and extension mp4. */
  predicate Keep(f: FormatRecord)
  {
    f.vcodec != Present("none") && TruthyNat(f.height) && TruthyNat(f.width) && f.ext == Present("mp4")
  }

  /** `f"{width}x{height}"`. */
  function ResolutionLabel(width: nat, height: nat): string
  {
    NatToString(width) + "x" + NatToString(height)
  }

  /** `format.get('fps', 0) or 0`. */
  function FpsOf(f: FormatRecord): real
  {
    if f.fps.Present? && f.fps.value != 0.0 then f.fps.value else 0.0
  }

  function EntryOf(f: FormatRecord, audioSize: nat): Entry
    requires Keep(f)
  {
    Entry(f.formatId + AudioSuffix,
          ResolutionLabel(f.width.value, f.height.value),
          "mp4",
          Sized(SizeTextOf(SizeOf(f) + audioSize)),
          f.height.value,
          FpsOf(f))
  }

  /** The entries of the kept formats, in input order. */
  function Listed(fs: seq<FormatRecord>, audioSize: nat): seq<Entry>
  {
    if fs == [] then []
    else
      var rest := Listed(fs[..|fs| - 1], audioSize);
      var f := fs[|fs| - 1];
      if Keep(f) then rest + [EntryOf(f, audioSize)] else rest
  }

  /** An entry is listed exactly when it is the entry of a kept format. */
  lemma {:induction false} ListedMembers(fs: seq<FormatRecord>, audioSize: nat)
    ensures forall e :: e in Listed(fs, audioSize) ==>
      exists i :: 0 <= i < |fs| && Keep(fs[i]) && e == EntryOf(fs[i], audioSize)
    ensures forall i :: 0 <= i < |fs| && Keep(fs[i]) ==> EntryOf(fs[i], audioSize) in Listed(fs, audioSize)
  {
    if fs != [] {
      var init := fs[..|fs| - 1];
      ListedMembers(init, audioSize);
      forall e | e in Listed(fs, audioSize)
        ensures exists i :: 0 <= i < |fs| && Keep(fs[i]) && e == EntryOf(fs[i], audioSize)
      {
        if e in Listed(init, audioSize) {
          var i :| 0 <= i < |init| && Keep(init[i]) && e == EntryOf(init[i], audioSize);
          assert fs[i] == init[i];
        } else {
          assert e == EntryOf(fs[|fs| - 1], audioSize);
        }
      }
      forall i | 0 <= i < |fs| && Keep(fs[i])
        ensures EntryOf(fs[i], audioSize) in Listed(fs, audioSize)
      {
        if i < |fs| - 1 {
          assert init[i] == fs[i];
        }
      }
    }
  }

  /** Every character of a label renders a digit, except one 'x' right after
      the width. */
  lemma LabelShape(width: nat, height: nat)
    ensures var l := ResolutionLabel(width, height);
      && (forall i :: 0 <= i < |NatToString(width)| ==> IsDigit(l[i]))
      && l[|NatToString(width)|] == 'x'
      && IsDigit(l[0])
  {
  }

  /** A label determines the width and the height it was made from. */
  lemma ResolutionLabelInjective(w1: nat, h1: nat, w2: nat, h2: nat)
    requires ResolutionLabel(w1, h1) == ResolutionLabel(w2, h2)
    ensures w1 == w2 && h1 == h2
  {
    var l := ResolutionLabel(w1, h1);
    var a1, a2 := NatToString(w1), NatToString(w2);
    LabelShape(w1, h1);
    LabelShape(w2, h2);
    assert |a1| == |a2|;
    assert a1 == l[..|a1|] == a2;
    NatToStringInjective(w1, w2);
    assert NatToString(h1) == l[|a1| + 1..] == NatToString(h2);
    NatToStringInjective(h1, h2);
  }

  /** No listed entry carries the "Best Quality" label. */
  lemma ListedLabels(fs: seq<FormatRecord>, audioSize: nat)
    ensures forall e :: e in Listed(fs, audioSize) ==> e.resolution != BestEntry.resolution
  {
    ListedMembers(fs, audioSize);
    forall e | e in Listed(fs, audioSize)
      ensures e.resolution != BestEntry.resolution
    {
      var i :| 0 <= i < |fs| && Keep(fs[i]) && e == EntryOf(fs[i], audioSize);
      LabelShape(fs[i].width.value, fs[i].height.value);
      assert e.resolution[0] != 'B';
    }
  }

  // ---------------------------------------------------------------------------
  // `sorted(formats, key=lambda x: (x['height'], x['fps']), reverse=True)`

  /** `a` sorts strictly before `b`: a larger (height, fps) pair. */
  predicate Outranks(a: Entry, b: Entry)
  {
    a.height > b.height || (a.height == b.height && a.fps > b.fps)
  }

  predicate SameKey(a: Entry, b: Entry)
  {
    a.height == b.height && a.fps == b.fps
  }

  /** Non-increasing in (height, fps). */
  predicate SortedDesc(s: seq<Entry>)
  {
    forall i, j :: 0 <= i < j < |s| ==> !Outranks(s[j], s[i])
  }

  /** Puts `x` in front of the first element it is not outranked by. */
  function Insert(x: Entry, s: seq<Entry>): seq<Entry>
  {
    if s == [] || !Outranks(s[0], x) then [x] + s else [s[0]] + Insert(x, s[1..])
  }

  /** A stable sort, highest (height, fps) first; equal keys keep their
      input order, as Python's `sorted(..., reverse=True)` does. */
  function SortDesc(s: seq<Entry>): seq<Entry>
  {
    if s == [] then [] else Insert(s[0], SortDesc(s[1..]))
  }

  /** The entries of `s` whose sort key equals that of `k`, in order. */
  function WithKey(s: seq<Entry>, k: Entry): seq<Entry>
  {
    if s == [] then [] else (if SameKey(s[0], k) then [s[0]] else []) + WithKey(s[1..], k)
  }

  lemma {:induction false} InsertSorted(x: Entry, s: seq<Entry>)
    requires SortedDesc(s)
    ensures SortedDesc(Insert(x, s))
    ensures multiset(Insert(x, s)) == multiset(s) + multiset{x}
  {
    if s != [] && Outranks(s[0], x) {
      InsertSorted(x, s[1..]);
      var r := Insert(x, s[1..]);
      assert s == [s[0]] + s[1..];
      forall e | e in r ensures !Outranks(e, s[0]) {
        assert e in multiset(r);
      }
    }
  }

  lemma {:induction false} InsertKeepsKeyOrder(x: Entry, s: seq<Entry>, k: Entry)
    ensures WithKey(Insert(x, s), k) == if SameKey(x, k) then [x] + WithKey(s, k) else WithKey(s, k)
  {
    if s == [] || !Outranks(s[0], x) {
      assert ([x] + s)[1..] == s;
    } else {
      InsertKeepsKeyOrder(x, s[1..], k);
      assert ([s[0]] + Insert(x, s[1..]))[1..] == Insert(x, s[1..]);
      if SameKey(x, k) {
        assert ([x] + WithKey(s[1..], k))[1..] == WithKey(s[1..], k);
      }
    }
  }

  /** SortDesc is a stable sort: its result is ordered from the top, is a
      permutation of its input, and keeps the input order of equal keys.
      These three facts determine the result. */
  lemma {:induction false} SortDescCorrect(s: seq<Entry>)
    ensures SortedDesc(SortDesc(s))
    ensures multiset(SortDesc(s)) == multiset(s)
    ensures forall k :: WithKey(SortDesc(s), k) == WithKey(s, k)
  {
    if s != [] {
      SortDescCorrect(s[1..]);
      InsertSorted(s[0], SortDesc(s[1..]));
      assert s == [s[0]] + s[1..];
      forall k ensures WithKey(SortDesc(s), k) == WithKey(s, k) {
        InsertKeepsKeyOrder(s[0], SortDesc(s[1..]), k);
      }
    }
  }

  // ---------------------------------------------------------------------------
  // Removing duplicate resolutions, first one wins

  function Labels(s: seq<Entry>): set<string>
  {
    set i | 0 <= i < |s| :: s[i].resolution
  }

  /** The loop at the end of `get_formats`: keep an entry when its label has
      not been kept yet. */
  function Dedup(s: seq<Entry>): seq<Entry>
  {
    if s == [] then []
    else
      var kept := Dedup(s[..|s| - 1]);
      if s[|s| - 1].resolution in Labels(kept) then kept else kept + [s[|s| - 1]]
  }

  predicate DistinctLabels(s: seq<Entry>)
  {
    forall i, j :: 0 <= i < j < |s| ==> s[i].resolution != s[j].resolution
  }

  /** `a` is `b` with some elements left out, order kept. */
  predicate IsSubsequence(a: seq<Entry>, b: seq<Entry>)
    decreases |b|
  {
    if a == [] then true
    else if b == [] then false
    else (a[|a| - 1] == b[|b| - 1] && IsSubsequence(a[..|a| - 1], b[..|b| - 1]))
         || IsSubsequence(a, b[..|b| - 1])
  }

  lemma LabelInTail(s: seq<Entry>, resolution: string)
    requires resolution in Labels(s) && s[0].resolution != resolution
    ensures resolution in Labels(s[1..])
  {
    var i :| 0 <= i < |s| && s[i].resolution == resolution;
    assert s[1..][i - 1] == s[i];
  }

  /** Where a label first occurs. */
  function FirstIndexOf(s: seq<Entry>, resolution: string): (i: nat)
    requires resolution in Labels(s)
    ensures i < |s| && s[i].resolution == resolution
    ensures forall j :: 0 <= j < i ==> s[j].resolution != resolution
  {
    if s[0].resolution == resolution then 0
    else
      LabelInTail(s, resolution);
      1 + FirstIndexOf(s[1..], resolution)
  }

  lemma FirstIndexUnique(s: seq<Entry>, resolution: string, i: nat)
    requires i < |s| && s[i].resolution == resolution
    requires forall j :: 0 <= j < i ==> s[j].resolution != resolution
    ensures resolution in Labels(s) && FirstIndexOf(s, resolution) == i
  {
  }

  lemma LabelsSnoc(s: seq<Entry>, x: Entry)
    ensures Labels(s + [x]) == Labels(s) + {x.resolution}
  {
    var t := s + [x];
    forall l | l in Labels(t) ensures l in Labels(s) + {x.resolution} {
      var i :| 0 <= i < |t| && t[i].resolution == l;
      if i < |s| {
        assert s[i] == t[i];
      }
    }
    forall l | l in Labels(s) ensures l in Labels(t) {
      var i :| 0 <= i < |s| && s[i].resolution == l;
      assert t[i] == s[i];
    }
    assert t[|s|] == x;
  }

  /** Deduplication keeps every label once and no label twice. */
  lemma {:induction false} DedupLabels(s: seq<Entry>)
    ensures DistinctLabels(Dedup(s))
    ensures Labels(Dedup(s)) == Labels(s)
  {
    if s != [] {
      var init, x := s[..|s| - 1], s[|s| - 1];
      DedupLabels(init);
      assert s == init + [x];
      LabelsSnoc(init, x);
      var kept := Dedup(init);
      if x.resolution !in Labels(kept) {
        LabelsSnoc(kept, x);
        forall i | 0 <= i < |kept| ensures kept[i].resolution != x.resolution {
          assert kept[i].resolution in Labels(kept);
        }
      }
    }
  }

  /** Deduplication keeps entries in their order. */
  lemma {:induction false} DedupSubsequence(s: seq<Entry>)
    ensures IsSubsequence(Dedup(s), s)
  {
    if s != [] {
      var init, x := s[..|s| - 1], s[|s| - 1];
      DedupSubsequence(init);
      var kept := Dedup(init);
      if x.resolution !in Labels(kept) {
        assert (kept + [x])[..|kept|] == kept;
      } else if kept != [] {
        assert IsSubsequence(kept, init);
      }
    }
  }

  /** Each kept entry is the first entry of the input with its label. */
  lemma {:induction false} DedupFirstWins(s: seq<Entry>)
    ensures forall k :: 0 <= k < |Dedup(s)| ==>
      Dedup(s)[k].resolution in Labels(s) && Dedup(s)[k] == s[FirstIndexOf(s, Dedup(s)[k].resolution)]
  {
    if s != [] {
      var init, x := s[..|s| - 1], s[|s| - 1];
      DedupFirstWins(init);
      DedupLabels(init);
      var kept := Dedup(init);
      forall k | 0 <= k < |Dedup(s)|
        ensures Dedup(s)[k].resolution in Labels(s)
        ensures Dedup(s)[k] == s[FirstIndexOf(s, Dedup(s)[k].resolution)]
      {
        var e := Dedup(s)[k];
        if k < |kept| {
          assert e == kept[k];
          var i := FirstIndexOf(init, e.resolution);
          assert s[i] == init[i];
          FirstIndexUnique(s, e.resolution, i);
        } else {
          assert e == x;
          forall j | 0 <= j < |s| - 1 ensures s[j].resolution != x.resolution {
            assert s[j] == init[j];
            assert s[j].resolution in Labels(init);
          }
          FirstIndexUnique(s, x.resolution, |s| - 1);
        }
      }
    }
  }

  /** Over a sorted list, the entry kept for a label ranks at least as high
      as every entry with that resolution, so it has the highest fps of its
      resolution. */
  lemma DedupKeepsTopRanked(s: seq<Entry>)
    requires SortedDesc(s)
    ensures forall k, i ::
              0 <= k < |Dedup(s)| && 0 <= i < |s| && s[i].resolution == Dedup(s)[k].resolution ==>
                !Outranks(s[i], Dedup(s)[k])
  {
    DedupFirstWins(s);
  }

  lemma {:induction false} DedupSorted(s: seq<Entry>)
    requires SortedDesc(s)
    ensures SortedDesc(Dedup(s))
    ensures forall e :: e in Dedup(s) ==> e in s
  {
    if s != [] {
      var init, x := s[..|s| - 1], s[|s| - 1];
      DedupSorted(init);
      forall e | e in Dedup(init) ensures e in s && !Outranks(x, e) {
        var i :| 0 <= i < |init| && init[i] == e;
        assert s[i] == e;
      }
    }
  }

  lemma {:induction false} DedupHead(s: seq<Entry>)
    requires s != []
    ensures Dedup(s) != [] && Dedup(s)[0] == s[0]
  {
    if |s| > 1 {
      DedupHead(s[..|s| - 1]);
    }
  }

  // ---------------------------------------------------------------------------
  // The whole pipeline

  /** The catalogue `get_formats` returns for a format list. */
  function Catalogue(records: seq<FormatRecord>): seq<Entry>
  {
    Dedup(SortDesc([BestEntry] + Listed(records, AudioSize(records))))
  }

  /** The catalogue is sorted from the top, has one entry per resolution
      label, always offers "Best Quality", and lists nothing but that entry
      and the entries of kept formats. */
  lemma CatalogueProperties(records: seq<FormatRecord>)
    ensures SortedDesc(Catalogue(records))
    ensures DistinctLabels(Catalogue(records))
    ensures BestEntry in Catalogue(records)
    ensures forall e :: e in Catalogue(records) ==>
      e == BestEntry || exists i :: 0 <= i < |records| && Keep(records[i]) && e == EntryOf(records[i], AudioSize(records))
  {
    var listed := Listed(records, AudioSize(records));
    var all := [BestEntry] + listed;
    var sorted := SortDesc(all);
    SortDescCorrect(all);
    DedupSorted(sorted);
    DedupLabels(sorted);
    DedupFirstWins(sorted);
    ListedMembers(records, AudioSize(records));
    ListedLabels(records, AudioSize(records));
    var out := Dedup(sorted);
    assert all[0] == BestEntry;
    assert BestEntry in multiset(sorted);
    assert BestEntry.resolution in Labels(sorted);
    var k :| 0 <= k < |out| && out[k].resolution == BestEntry.resolution;
    var f := FirstIndexOf(sorted, BestEntry.resolution);
    assert sorted[f] in multiset(all);
    forall e | e in out
      ensures e == BestEntry || exists i :: 0 <= i < |records| && Keep(records[i]) && e == EntryOf(records[i], AudioSize(records))
    {
      assert e in multiset(all);
      if e != BestEntry {
        assert e in listed;
      }
    }
  }

  /** Two entries of the unsorted catalogue with the same label have the
      same height: both are "Best Quality", or both come from formats whose
      `WxH` labels agree. */
  lemma SameLabelSameHeight(records: seq<FormatRecord>, a: Entry, b: Entry)
    requires a in [BestEntry] + Listed(records, AudioSize(records))
    requires b in [BestEntry] + Listed(records, AudioSize(records))
    requires a.resolution == b.resolution
    ensures a.height == b.height
  {
    var listed := Listed(records, AudioSize(records));
    ListedMembers(records, AudioSize(records));
    ListedLabels(records, AudioSize(records));
    if a != BestEntry && b != BestEntry {
      assert a in listed && b in listed;
      var i :| 0 <= i < |records| && Keep(records[i]) && a == EntryOf(records[i], AudioSize(records));
      var j :| 0 <= j < |records| && Keep(records[j]) && b == EntryOf(records[j], AudioSize(records));
      ResolutionLabelInjective(records[i].width.value, records[i].height.value,
                               records[j].width.value, records[j].height.value);
    }
  }

  /** In a sorted list, the first entry with a label is not outranked by any
      later entry with that label. */
  lemma FirstOfLabelRanksHighest(sorted: seq<Entry>, m: nat)
    requires SortedDesc(sorted) && m < |sorted|
    ensures sorted[m].resolution in Labels(sorted)
    ensures !Outranks(sorted[m], sorted[FirstIndexOf(sorted, sorted[m].resolution)])
  {
    var f := FirstIndexOf(sorted, sorted[m].resolution);
    assert f <= m;
  }

  /** The entry the catalogue keeps for a resolution has the height of every
      entry with that label and the highest fps among them. */
  lemma CatalogueKeepsTopFps(records: seq<FormatRecord>)
    ensures forall e, e' ::
              e in Catalogue(records) && e' in SortDesc([BestEntry] + Listed(records, AudioSize(records)))
              && e'.resolution == e.resolution ==>
                e'.height == e.height && e'.fps <= e.fps
  {
    var all := [BestEntry] + Listed(records, AudioSize(records));
    var sorted := SortDesc(all);
    var out := Dedup(sorted);
    SortDescCorrect(all);
    DedupFirstWins(sorted);
    forall e, e' | e in out && e' in sorted && e'.resolution == e.resolution
      ensures e'.height == e.height && e'.fps <= e.fps
    {
      var k :| 0 <= k < |out| && out[k] == e;
      var m :| 0 <= m < |sorted| && sorted[m] == e';
      FirstOfLabelRanksHighest(sorted, m);
      assert e in multiset(all) && e' in multiset(all);
      SameLabelSameHeight(records, e, e');
    }
  }

  /** When no kept format is as tall as the sentinel, "Best Quality" heads
      the catalogue. */
  lemma BestEntryFirst(records: seq<FormatRecord>)
    requires forall i :: 0 <= i < |records| && Keep(records[i]) ==> records[i].height.value < SortSentinel
    ensures Catalogue(records) != [] && Catalogue(records)[0] == BestEntry
  {
    var listed := Listed(records, AudioSize(records));
    var rest := SortDesc(listed);
    ListedMembers(records, AudioSize(records));
    SortDescCorrect(listed);
    if rest != [] {
      assert rest[0] in multiset(listed);
      assert rest[0] in listed;
      var i :| 0 <= i < |records| && Keep(records[i]) && rest[0] == EntryOf(records[i], AudioSize(records));
      assert !Outranks(rest[0], BestEntry);
    }
    var all := [BestEntry] + listed;
    assert all[1..] == listed;
    assert SortDesc(all) == Insert(BestEntry, rest);
    assert SortDesc(all) == [BestEntry] + rest;
    DedupHead(SortDesc(all));
  }

  // ---------------------------------------------------------------------------
  // The code of `get_formats`

  /** The loop that fills `formats`: the "Best Quality" entry, then one entry
      per kept format in input order. */
  method BuildEntries(records: seq<FormatRecord>, bestAudio: Option<FormatRecord>)
    returns (formats: seq<Entry>)
    ensures formats == [BestEntry] + Listed(records, AudioSizeOf(bestAudio))
  {
    formats := [BestEntry];
    for i := 0 to |records|
      invariant formats == [BestEntry] + Listed(records[..i], AudioSizeOf(bestAudio))
    {
      var f := records[i];
      assert records[..i + 1][..i] == records[..i];
      if f.vcodec != Present("none") && TruthyNat(f.height) && TruthyNat(f.width) && f.ext == Present("mp4") {
        var videoSize := SizeOf(f);
        var audioSize := AudioSizeOf(bestAudio);
        var filesize := FormatFilesize(videoSize + audioSize);
        formats := formats + [Entry(f.formatId + AudioSuffix,
                                    ResolutionLabel(f.width.value, f.height.value),
                                    "mp4",
                                    Sized(filesize),
                                    f.height.value,
                                    FpsOf(f))];
      }
    }
    assert records[..|records|] == records;
  }

  /** The loop that removes duplicate resolutions with a set of seen labels. */
  method RemoveDuplicateResolutions(sorted: seq<Entry>) returns (unique: seq<Entry>)
    ensures unique == Dedup(sorted)
    ensures DistinctLabels(unique) && Labels(unique) == Labels(sorted)
  {
    var seen: set<string> := {};
    unique := [];
    for i := 0 to |sorted|
      invariant unique == Dedup(sorted[..i])
      invariant seen == Labels(unique)
    {
      var f := sorted[i];
      assert sorted[..i + 1][..i] == sorted[..i];
      if f.resolution !in seen {
        LabelsSnoc(unique, f);
        seen := seen + {f.resolution};
        unique := unique + [f];
      }
    }
    assert sorted[..|sorted|] == sorted;
    DedupLabels(sorted);
  }

  /** Lines 78-139 of `get_formats`, on the format list yt-dlp returned. */
  method GetFormats(records: seq<FormatRecord>) returns (unique: seq<Entry>)
    ensures unique == Catalogue(records)
    ensures SortedDesc(unique) && DistinctLabels(unique) && BestEntry in unique
  {
    var bestAudio := BestAudio(records);
    var formats := BuildEntries(records, bestAudio);
    formats := SortDesc(formats);
    unique := RemoveDuplicateResolutions(formats);
    CatalogueProperties(records);
  }
}
