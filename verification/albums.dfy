/**
 Albums and their tracks (`Album`, `Pista`): appending a track, the total
 duration, the first longest track, the highlight rule and the projection a
 card is rendered from.
 */
module Albums {
  import opened Wrappers
  import opened Clock

  /** A track (`Pista`): a name and a duration in seconds. */
  datatype Track = Track(name: string, duration: int)

  /** An album: its text fields, its numeric code and its tracks in insertion order. */
  datatype Album = Album(name: string, artist: string, code: int, cover: string, tracks: seq<Track>)

  predicate NonNegative(ts: seq<Track>) { forall i :: 0 <= i < |ts| ==> ts[i].duration >= 0 }

  /**
   The sum of the durations, accumulated from the first track to the last
   as `reduce` with initial value 0 does.
   */
  function Sum(ts: seq<Track>): (total: int)
    ensures |ts| == 0 ==> total == 0
  {
    if |ts| == 0 then 0 else Sum(ts[..|ts| - 1]) + ts[|ts| - 1].duration
  }

  /**
   With no negative duration the total is at least every single duration,
   and with durations of at most 7200 seconds it is at most 7200 per track.
   */
  lemma {:induction false} SumBounds(ts: seq<Track>)
    ensures NonNegative(ts) ==> Sum(ts) >= 0
    ensures NonNegative(ts) ==> forall i :: 0 <= i < |ts| ==> ts[i].duration <= Sum(ts)
    ensures (forall i :: 0 <= i < |ts| ==> ts[i].duration <= 7200) ==> Sum(ts) <= 7200 * |ts|
  {
    if |ts| > 0 {
      var front := ts[..|ts| - 1];
      SumBounds(front);
      assert forall i :: 0 <= i < |front| ==> front[i] == ts[i];
    }
  }

  /**
   `duracionTotal`: the sum of the album's durations; `SumBounds` relates it
   to the single durations.
   */
  function TotalDuration(a: Album): (d: int)
    ensures |a.tracks| == 0 ==> d == 0
    ensures NonNegative(a.tracks) ==> d >= 0
  {
    SumBounds(a.tracks);
    Sum(a.tracks)
  }

  /** The total of two track lists put together is the sum of their totals. */
  lemma {:induction false} SumConcat(ts: seq<Track>, us: seq<Track>)
    ensures Sum(ts + us) == Sum(ts) + Sum(us)
    decreases |us|
  {
    if |us| > 0 {
      var us' := us[..|us| - 1];
      SumConcat(ts, us');
      assert (ts + us)[..|ts + us| - 1] == ts + us';
      assert (ts + us)[|ts + us| - 1] == us[|us| - 1];
    } else {
      assert ts + us == ts;
    }
  }

  /** The total does not depend on the order of the tracks. */
  lemma {:induction false} SumPermutation(ts: seq<Track>, us: seq<Track>)
    requires multiset(ts) == multiset(us)
    ensures Sum(ts) == Sum(us)
    decreases |ts|
  {
    if |ts| > 0 {
      var n := |ts| - 1;
      var t := ts[n];
      assert ts == ts[..n] + [t];
      assert multiset(ts) == multiset(ts[..n]) + multiset{t};
      assert t in multiset(us);
      var j :| 0 <= j < |us| && us[j] == t;
      assert us == us[..j] + [t] + us[j + 1..];
      var rest := us[..j] + us[j + 1..];
      calc {
        multiset(us);
        multiset(us[..j] + [t] + us[j + 1..]);
        multiset(us[..j]) + multiset{t} + multiset(us[j + 1..]);
        multiset(rest) + multiset{t};
      }
      assert multiset(ts[..n]) + multiset{t} == multiset(rest) + multiset{t};
      assert multiset(ts[..n]) == multiset(ts[..n]) + multiset{t} - multiset{t};
      assert multiset(rest) == multiset(rest) + multiset{t} - multiset{t};
      SumPermutation(ts[..n], rest);
      SumConcat(us[..j] + [t], us[j + 1..]);
      SumConcat(us[..j], [t]);
      SumConcat(us[..j], us[j + 1..]);
      assert Sum([t]) == t.duration by { assert [t][..0] == []; }
    }
  }

  /** `agregarPista`: the track goes at the end; nothing else changes. */
  function AddTrack(a: Album, t: Track): (r: Album)
    ensures |r.tracks| == |a.tracks| + 1
    ensures r.tracks[..|a.tracks|] == a.tracks && r.tracks[|a.tracks|] == t
    ensures r.name == a.name && r.artist == a.artist && r.code == a.code && r.cover == a.cover
    ensures TotalDuration(r) == TotalDuration(a) + t.duration
  {
    var r := a.(tracks := a.tracks + [t]);
    assert r.tracks[..|a.tracks|] == a.tracks;
    r
  }

  /**
   `k` is the first position of a longest track: no track is longer and
   every track before it is strictly shorter.
   */
  predicate IsFirstLongest(ts: seq<Track>, k: int)
  {
    && 0 <= k < |ts|
    && (forall j :: 0 <= j < |ts| ==> ts[j].duration <= ts[k].duration)
    && (forall j :: 0 <= j < k ==> ts[j].duration < ts[k].duration)
  }

  /** There is only one such position. */
  lemma FirstLongestUnique(ts: seq<Track>, k: int, k': int)
    requires IsFirstLongest(ts, k) && IsFirstLongest(ts, k')
    ensures k == k'
  {
    assert ts[k].duration == ts[k'].duration;
    assert !(k < k');
    assert !(k' < k);
  }

  /**
   The loop of `pistaMasLarga` from position `i` on, with `best` the position
   of the track held so far; a later track replaces it only when strictly longer.
   */
  function ScanLongest(ts: seq<Track>, i: nat, best: nat): (k: nat)
    requires best < i <= |ts|
    requires IsFirstLongest(ts[..i], best)
    ensures IsFirstLongest(ts, k)
    decreases |ts| - i
  {
    if i == |ts| then
      assert ts[..i] == ts;
      best
    else
      var best' := if ts[i].duration > ts[best].duration then i else best;
      assert ts[..i + 1] == ts[..i] + [ts[i]];
      ScanLongest(ts, i + 1, best')
  }

  /** The position `pistaMasLarga` picks: it starts from the first track. */
  function LongestIndex(ts: seq<Track>): (k: nat)
    requires |ts| > 0
    ensures IsFirstLongest(ts, k)
  {
    ScanLongest(ts, 1, 0)
  }

  /** `pistaMasLarga`; it reads the first track unconditionally, so the album must have one. */
  function LongestTrack(a: Album): (t: Track)
    requires |a.tracks| > 0
    ensures t in a.tracks
    ensures forall j :: 0 <= j < |a.tracks| ==> a.tracks[j].duration <= t.duration
    ensures exists k :: IsFirstLongest(a.tracks, k) && a.tracks[k] == t
  {
    a.tracks[LongestIndex(a.tracks)]
  }

  /** Tie-break: of two tracks of equal length, the earlier one is picked. */
  lemma LongestTieGoesFirst(a: Album, i: int, j: int)
    requires 0 <= i < j < |a.tracks|
    requires a.tracks[i].duration == a.tracks[j].duration
    ensures LongestIndex(a.tracks) != j
  {
  }

  /** The highlight rule of the card: a track longer than 180 seconds. */
  predicate Highlighted(t: Track) { t.duration > 180 }

  /** Some track is highlighted exactly when the longest one is. */
  lemma HighlightedIffLongest(a: Album)
    requires |a.tracks| > 0
    ensures (exists i :: 0 <= i < |a.tracks| && Highlighted(a.tracks[i])) <==> Highlighted(LongestTrack(a))
  {
    var t := LongestTrack(a);
    if exists i :: 0 <= i < |a.tracks| && Highlighted(a.tracks[i]) {
      var i :| 0 <= i < |a.tracks| && Highlighted(a.tracks[i]);
      assert a.tracks[i].duration <= t.duration;
    }
  }

  /**
   One line of the track list of a card: the track's name, its duration and
   whether it is highlighted; `Text` is what the line prints.
   */
  datatype TrackLine = TrackLine(name: string, seconds: int, highlighted: bool) {
    function Text(): string { name + " - " + FormatTime(seconds) }
  }

  /** The printed line starts with the track's name and its time reads back as the duration. */
  lemma LineText(t: Track)
    requires t.duration >= 0
    ensures var text := Line(t).Text();
      && |text| >= |t.name| + 3
      && text[..|t.name| + 3] == t.name + " - "
      && ParseClock(text[|t.name| + 3..]).Some?
      && ParseClock(text[|t.name| + 3..]).value == t.duration
  {
    var text := Line(t).Text();
    var clock := FormatTime(t.duration);
    assert text == (t.name + " - ") + clock;
    assert text[..|t.name| + 3] == t.name + " - ";
    assert text[|t.name| + 3..] == clock;
    FormatTimeRoundTrip(t.duration);
  }

  /** The line of one track. */
  function Line(t: Track): (l: TrackLine)
    ensures l.name == t.name && l.seconds == t.duration
    ensures l.highlighted <==> t.duration > 180
  {
    TrackLine(t.name, t.duration, Highlighted(t))
  }

  /** The track list, built one line per track in order as the card's `forEach` does. */
  function TrackLines(ts: seq<Track>): (r: seq<TrackLine>)
    ensures |r| == |ts|
    ensures forall i :: 0 <= i < |ts| ==> r[i] == Line(ts[i])
  {
    if |ts| == 0 then []
    else TrackLines(ts[..|ts| - 1]) + [Line(ts[|ts| - 1])]
  }

  /** With no negative duration the printed total reads back as the total. */
  lemma TotalReadsBack(a: Album)
    ensures NonNegative(a.tracks) ==>
      ParseClock(FormatTime(TotalDuration(a))).Some? && ParseClock(FormatTime(TotalDuration(a))).value == TotalDuration(a)
  {
    if NonNegative(a.tracks) {
      FormatTimeRoundTrip(TotalDuration(a));
    }
  }

  /** What a card shows of an album (the average is not part of this model). */
  datatype Card = Card(
    name: string, artist: string, code: int, cover: string,
    lines: seq<TrackLine>, totalTime: string, longestName: string, longestTime: string)

  /**
   The content of `toHTML`. It asks for the longest track, so the album must
   have at least one; with non-negative durations the printed total and the
   printed longest duration read back as the numbers they show.
   */
  function Render(a: Album): (c: Card)
    requires |a.tracks| > 0
    ensures c.name == a.name && c.artist == a.artist && c.code == a.code && c.cover == a.cover
    ensures c.lines == TrackLines(a.tracks) && |c.lines| == |a.tracks|
    ensures forall i :: 0 <= i < |a.tracks| ==> (c.lines[i].highlighted <==> a.tracks[i].duration > 180)
    ensures c.totalTime == FormatTime(TotalDuration(a))
    ensures NonNegative(a.tracks) ==>
      ParseClock(c.totalTime).Some? && ParseClock(c.totalTime).value == TotalDuration(a)
    ensures exists k :: (IsFirstLongest(a.tracks, k) && c.longestName == a.tracks[k].name
      && c.longestTime == FormatTime(a.tracks[k].duration))
  {
    var longest := LongestTrack(a);
    var total := FormatTime(TotalDuration(a));
    TotalReadsBack(a);
    Card(a.name, a.artist, a.code, a.cover, TrackLines(a.tracks),
         total, longest.name, FormatTime(longest.duration))
  }
}
