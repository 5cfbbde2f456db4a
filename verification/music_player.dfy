/**
 * The playlist logic of src/components/MusicPlayer.tsx: which track is
 * current, where next/previous go, adding and deleting tracks, the category
 * filter, and the YouTube id taken from a track url. Playback, volume and
 * the localStorage copy of the playlist are not modelled.
 */
module MusicPlayer {
  import opened Wrappers
  import opened Seqs
  import Text

  /** `TrackCategory`, whose `'all'` doubles as the "no filter" choice. */
  datatype Category = All | Lofi | Ambient | Instrumental | Focus | Coding

  datatype Track = Track(name: string, url: string, category: Category)

  /** The player's state: the playlist, the selected url (`''` before the first selection) and whether it plays. */
  datatype Player = Player(playlist: seq<Track>, currentTrackUrl: string, isPlaying: bool)

  datatype Source = YouTube | File

  datatype Direction = Next | Prev

  const DefaultTracks: seq<Track> := [
    Track("Lofi Girl - Study Beats", "https://www.youtube.com/watch?v=jfKfPfyJRdk", Lofi),
    Track("Synthwave Radio", "https://www.youtube.com/watch?v=4xDzrJKXOOY", Coding),
    Track("Rain Sounds", "https://cdn.pixabay.com/download/audio/2022/07/04/audio_165030c44c.mp3", Ambient)
  ]

  const Initial := Player(DefaultTracks, "", false)

  function UrlIs(url: string): Track -> bool
  {
    (t: Track) => t.url == url
  }

  function UrlIsNot(url: string): Track -> bool
  {
    (t: Track) => t.url != url
  }

  /**
   * `currentTrack`: the first track with the selected url, else the first
   * track, else the first default track.
   */
  function CurrentTrack(p: Player): (r: Track)
    ensures |p.playlist| > 0 ==> r in p.playlist
    ensures (exists i :: 0 <= i < |p.playlist| && p.playlist[i].url == p.currentTrackUrl) ==>
      r.url == p.currentTrackUrl &&
      exists i :: 0 <= i < |p.playlist| && p.playlist[i] == r &&
        forall k :: 0 <= k < i ==> p.playlist[k].url != p.currentTrackUrl
    ensures 0 < |p.playlist| && (forall i :: 0 <= i < |p.playlist| ==> p.playlist[i].url != p.currentTrackUrl) ==>
      r == p.playlist[0]
    ensures |p.playlist| == 0 ==> r == DefaultTracks[0]
  {
    match IndexOf(p.playlist, UrlIs(p.currentTrackUrl))
    case Some(i) => p.playlist[i]
    case None => if |p.playlist| > 0 then p.playlist[0] else DefaultTracks[0]
  }

  /** `sourceType`: YouTube exactly when the current track's url contains `"youtu"`. */
  function SourceType(p: Player): (s: Source)
    ensures s == YouTube <==> exists i: nat :: Text.OccursAt(CurrentTrack(p).url, "youtu", i)
  {
    if Text.Contains(CurrentTrack(p).url, "youtu") then YouTube else File
  }

  function InCategory(category: Category): Track -> bool
  {
    (t: Track) => t.category == category
  }

  /**
   * `filteredPlaylist`: everything for `'all'`, otherwise exactly the tracks
   * of that category, in playlist order.
   */
  function FilteredPlaylist(playlist: seq<Track>, category: Category): (r: seq<Track>)
    ensures category == All ==> r == playlist
    ensures category != All ==> Subsequence(r, playlist)
    ensures category != All ==> forall i :: 0 <= i < |r| ==> r[i] in playlist && r[i].category == category
    ensures category != All ==> forall i :: 0 <= i < |playlist| && playlist[i].category == category ==>
      multiset(r)[playlist[i]] == multiset(playlist)[playlist[i]]
  {
    if category == All then playlist
    else
      FilterIsSubsequence(playlist, InCategory(category));
      Filter(playlist, InCategory(category))
  }

  /** Position of the current track: the first track sharing its url (`findIndex`). */
  function TrackIndex(p: Player): (i: nat)
    requires |p.playlist| > 0
    ensures i < |p.playlist| && p.playlist[i].url == CurrentTrack(p).url
    ensures forall k :: 0 <= k < i ==> p.playlist[k].url != CurrentTrack(p).url
  {
    var cur := CurrentTrack(p);
    var j :| 0 <= j < |p.playlist| && p.playlist[j] == cur;
    assert UrlIs(cur.url)(p.playlist[j]);
    IndexOf(p.playlist, UrlIs(cur.url)).value
  }

  /** The index one step away, wrapping around at either end. */
  function StepIndex(i: nat, n: nat, dir: Direction): (j: nat)
    requires i < n
    ensures j < n
  {
    match dir
    case Next => (i + 1) % n
    case Prev => (i - 1 + n) % n
  }

  /** Stepping forward and then back, or back and then forward, returns to the start. */
  lemma StepIndexInverse(i: nat, n: nat)
    requires i < n
    ensures StepIndex(StepIndex(i, n, Next), n, Prev) == i
    ensures StepIndex(StepIndex(i, n, Prev), n, Next) == i
  {
    var next := StepIndex(i, n, Next);
    var prev := StepIndex(i, n, Prev);
    ModBelowTwice(i + 1, n);
    ModBelowTwice(i - 1 + n, n);
    ModBelowTwice(next - 1 + n, n);
    ModBelowTwice(prev + 1, n);
  }

  /** The remainder of a number below `2 * n`. */
  lemma ModBelowTwice(x: int, n: nat)
    requires 0 <= x < 2 * n
    ensures x % n == if x < n then x else x - n
  {
    if x >= n {
      assert x == 1 * n + (x - n);
    }
  }

  /**
   * `changeTrack(dir)`: selects the neighbouring track of the current one and
   * starts playing; on an empty playlist it throws (`None`).
   */
  function ChangeTrack(p: Player, dir: Direction): (r: Option<Player>)
    ensures r.None? <==> |p.playlist| == 0
    ensures r.Some? ==> r.value.playlist == p.playlist && r.value.isPlaying
    ensures r.Some? ==> exists j :: 0 <= j < |p.playlist| && r.value.currentTrackUrl == p.playlist[j].url
    ensures r.Some? ==> r.value.currentTrackUrl == p.playlist[StepIndex(TrackIndex(p), |p.playlist|, dir)].url
  {
    if |p.playlist| == 0 then None
    else
      var j := StepIndex(TrackIndex(p), |p.playlist|, dir);
      Some(p.(currentTrackUrl := p.playlist[j].url, isPlaying := true))
  }

  /** No two tracks share a url. */
  ghost predicate DistinctUrls(playlist: seq<Track>)
  {
    forall i, j :: 0 <= i < j < |playlist| ==> playlist[i].url != playlist[j].url
  }

  /** With distinct urls, the track at position `i` is found again at `i`. */
  lemma TrackIndexOfPosition(p: Player, i: nat)
    requires DistinctUrls(p.playlist) && i < |p.playlist|
    requires p.currentTrackUrl == p.playlist[i].url
    ensures TrackIndex(p) == i
  {
    assert UrlIs(p.currentTrackUrl)(p.playlist[i]);
    var k := TrackIndex(p);
    assert CurrentTrack(p).url == p.currentTrackUrl;
    assert forall j :: 0 <= j < |p.playlist| && j != i ==> p.playlist[j].url != p.playlist[i].url;
  }

  /** With distinct urls, "next" then "previous" comes back to the track that was current. */
  lemma NextThenPrev(p: Player)
    requires |p.playlist| > 0 && DistinctUrls(p.playlist)
    ensures ChangeTrack(ChangeTrack(p, Next).value, Prev).value.currentTrackUrl == CurrentTrack(p).url
  {
    var n := |p.playlist|;
    var i := TrackIndex(p);
    var q := ChangeTrack(p, Next).value;
    TrackIndexOfPosition(q, StepIndex(i, n, Next));
    StepIndexInverse(i, n);
  }

  /** `addTrack`: ignored when the name or the url is empty, otherwise one track is appended. */
  function AddTrack(playlist: seq<Track>, name: string, url: string, category: Category): (r: seq<Track>)
    ensures name == "" || url == "" ==> r == playlist
    ensures name != "" && url != "" ==>
      |r| == |playlist| + 1 && r[..|playlist|] == playlist && r[|playlist|] == Track(name, url, category)
  {
    if name == "" || url == "" then playlist else playlist + [Track(name, url, category)]
  }

  /**
   * `deleteTrack(url)` as written: a no-op for one track or fewer; otherwise
   * deleting the selected url first moves to the next track of the old
   * playlist, and then every track with that url is removed.
   */
  function DeleteTrackAsWritten(p: Player, url: string): (r: Player)
    ensures |p.playlist| <= 1 ==> r == p
    ensures |p.playlist| > 1 ==>
      && Subsequence(r.playlist, p.playlist)
      && (forall i :: 0 <= i < |r.playlist| ==> r.playlist[i] in p.playlist && r.playlist[i].url != url)
      && (forall i :: 0 <= i < |p.playlist| && p.playlist[i].url != url ==>
            multiset(r.playlist)[p.playlist[i]] == multiset(p.playlist)[p.playlist[i]])
      && (p.currentTrackUrl == url ==>
            r.currentTrackUrl == p.playlist[StepIndex(TrackIndex(p), |p.playlist|, Next)].url && r.isPlaying)
      && (p.currentTrackUrl != url ==> r.currentTrackUrl == p.currentTrackUrl && r.isPlaying == p.isPlaying)
  {
    if |p.playlist| <= 1 then p
    else
      FilterIsSubsequence(p.playlist, UrlIsNot(url));
      var moved := if p.currentTrackUrl == url then ChangeTrack(p, Next).value else p;
      moved.(playlist := Filter(p.playlist, UrlIsNot(url)))
  }

  /**
   * The guard counts tracks, not urls: two tracks sharing the deleted url
   * both go, emptying the playlist, after which next and previous throw.
   */
  lemma DeleteTrackAsWrittenEmpties()
    ensures var p := Player([Track("A", "u", Lofi), Track("B", "u", Lofi)], "u", true);
      && |p.playlist| == 2 && DeleteTrackAsWritten(p, "u").playlist == []
      && ChangeTrack(DeleteTrackAsWritten(p, "u"), Next).None?
  {
    var p := Player([Track("A", "u", Lofi), Track("B", "u", Lofi)], "u", true);
    assert p.playlist[1..][1..] == [];
  }

  /**
   * `deleteTrack(url)` with the guard it evidently intends: it also leaves
   * the playlist alone when every track has that url, so the playlist is
   * never emptied. Otherwise it behaves as written.
   */
  function DeleteTrack(p: Player, url: string): (r: Player)
    ensures |p.playlist| > 0 ==> |r.playlist| > 0
    ensures |p.playlist| <= 1 || (forall i :: 0 <= i < |p.playlist| ==> p.playlist[i].url == url) ==> r == p
    ensures |p.playlist| > 1 && (exists i :: 0 <= i < |p.playlist| && p.playlist[i].url != url) ==>
      && Subsequence(r.playlist, p.playlist)
      && (forall i :: 0 <= i < |r.playlist| ==> r.playlist[i] in p.playlist && r.playlist[i].url != url)
      && (forall i :: 0 <= i < |p.playlist| && p.playlist[i].url != url ==>
            multiset(r.playlist)[p.playlist[i]] == multiset(p.playlist)[p.playlist[i]])
      && (p.currentTrackUrl == url ==>
            r.currentTrackUrl == p.playlist[StepIndex(TrackIndex(p), |p.playlist|, Next)].url && r.isPlaying)
      && (p.currentTrackUrl != url ==> r.currentTrackUrl == p.currentTrackUrl && r.isPlaying == p.isPlaying)
  {
    var kept := Filter(p.playlist, UrlIsNot(url));
    assert |kept| > 0 ==> kept[0] in p.playlist && kept[0].url != url;
    if |kept| == 0 then p
    else
      var r := DeleteTrackAsWritten(p, url);
      assert |p.playlist| > 1 ==> kept[0] in r.playlist;
      r
  }

  /** The correction changes nothing unless every track has the deleted url. */
  lemma DeleteTrackAgrees(p: Player, url: string)
    requires exists i :: 0 <= i < |p.playlist| && p.playlist[i].url != url
    ensures DeleteTrack(p, url) == DeleteTrackAsWritten(p, url)
  {
    var i :| 0 <= i < |p.playlist| && p.playlist[i].url != url;
    assert p.playlist[i] in Filter(p.playlist, UrlIsNot(url));
  }

  /** The effect that selects the first track while nothing is selected yet. */
  function SelectFirst(p: Player): (r: Player)
    ensures r.playlist == p.playlist && r.isPlaying == p.isPlaying
    ensures p.currentTrackUrl == "" && |p.playlist| > 0 ==> r.currentTrackUrl == p.playlist[0].url
    ensures p.currentTrackUrl != "" || |p.playlist| == 0 ==> r == p
  {
    if p.currentTrackUrl == "" && |p.playlist| > 0 then p.(currentTrackUrl := p.playlist[0].url) else p
  }

  /** When no track has an empty url, selecting the first track does not change the current track. */
  lemma SelectFirstKeepsCurrentTrack(p: Player)
    requires forall i :: 0 <= i < |p.playlist| ==> p.playlist[i].url != ""
    ensures CurrentTrack(SelectFirst(p)) == CurrentTrack(p)
  {
    if p.currentTrackUrl == "" && |p.playlist| > 0 {
      var q := SelectFirst(p);
      assert UrlIs(q.currentTrackUrl)(q.playlist[0]);
      assert IndexOf(q.playlist, UrlIs(q.currentTrackUrl)) == Some(0);
    }
  }

  /** `togglePlay`: flips between playing and paused and changes nothing else. */
  function TogglePlay(p: Player): (r: Player)
    ensures r.isPlaying != p.isPlaying
    ensures r.playlist == p.playlist && r.currentTrackUrl == p.currentTrackUrl
  {
    p.(isPlaying := !p.isPlaying)
  }

  /** Clicking a track of the (filtered) list selects its url and starts playing. */
  function SelectTrack(p: Player, t: Track): (r: Player)
    ensures r.playlist == p.playlist && r.isPlaying && r.currentTrackUrl == t.url
  {
    p.(currentTrackUrl := t.url, isPlaying := true)
  }

  /**
   * After clicking the track at position `i` the current track has its url,
   * and with distinct urls it is that very track.
   */
  lemma SelectTrackMakesCurrent(p: Player, i: nat)
    requires i < |p.playlist|
    ensures CurrentTrack(SelectTrack(p, p.playlist[i])).url == p.playlist[i].url
    ensures DistinctUrls(p.playlist) ==> CurrentTrack(SelectTrack(p, p.playlist[i])) == p.playlist[i]
  {
    var q := SelectTrack(p, p.playlist[i]);
    assert q.playlist[i].url == q.currentTrackUrl;
    if DistinctUrls(p.playlist) {
      TrackIndexOfPosition(q, i);
    }
  }

  /** Pausing twice, or playing twice, leaves the player as it was. */
  lemma TogglePlayTwice(p: Player)
    ensures TogglePlay(TogglePlay(p)) == p
  {
  }

  /**
   * An added track shows up at the end of every list view it belongs to
   * (`'all'` and its own category), and the other views are unchanged.
   */
  lemma AddTrackThenFilter(playlist: seq<Track>, name: string, url: string, category: Category, view: Category)
    ensures FilteredPlaylist(AddTrack(playlist, name, url, category), view) ==
      FilteredPlaylist(playlist, view) +
        (if name != "" && url != "" && (view == All || view == category) then [Track(name, url, category)] else [])
  {
    if name != "" && url != "" && view != All {
      var t := Track(name, url, category);
      assert AddTrack(playlist, name, url, category) == playlist + [t];
      assert FilteredPlaylist(playlist + [t], view) == Filter(playlist + [t], InCategory(view));
      FilterAppend(playlist, [t], InCategory(view));
      assert Filter([t], InCategory(view)) == (if view == category then [t] else []) by {
        assert InCategory(view)(t) == (view == category);
        assert [t][1..] == [];
      }
    }
  }

  // ---------------------------------------------------------------- event runs

  /** One interaction with the player, with `deleteTrack` as corrected. */
  datatype PlayerEvent =
    | Added(name: string, url: string, category: Category)
    | Deleted(url: string)
    | Stepped(dir: Direction)
    | Clicked(track: Track)
    | FirstSelected
    | PlayToggled

  /** The state after one event; `None` when the handler throws. */
  function Dispatch(p: Player, e: PlayerEvent): Option<Player>
  {
    match e
    case Added(name, url, category) => Some(p.(playlist := AddTrack(p.playlist, name, url, category)))
    case Deleted(url) => Some(DeleteTrack(p, url))
    case Stepped(dir) => ChangeTrack(p, dir)
    case Clicked(t) => Some(SelectTrack(p, t))
    case FirstSelected => Some(SelectFirst(p))
    case PlayToggled => Some(TogglePlay(p))
  }

  /** The events applied in order, stopping at the first throw. */
  function Play(p: Player, es: seq<PlayerEvent>): Option<Player>
    decreases |es|
  {
    if |es| == 0 then Some(p)
    else
      match Dispatch(p, es[0])
      case None => None
      case Some(q) => Play(q, es[1..])
  }

  /** No event empties a non-empty playlist, so none throws. */
  lemma DispatchKeepsNonEmpty(p: Player, e: PlayerEvent)
    requires |p.playlist| > 0
    ensures Dispatch(p, e).Some? && |Dispatch(p, e).value.playlist| > 0
  {
  }

  /** Along any run from a non-empty playlist, nothing throws and the playlist stays non-empty. */
  lemma {:induction false} PlayKeepsNonEmpty(p: Player, es: seq<PlayerEvent>)
    requires |p.playlist| > 0
    ensures Play(p, es).Some? && |Play(p, es).value.playlist| > 0
    decreases |es|
  {
    if |es| > 0 {
      DispatchKeepsNonEmpty(p, es[0]);
      PlayKeepsNonEmpty(Dispatch(p, es[0]).value, es[1..]);
    }
  }

  /** From the default playlist, next and previous never throw, whatever happened before. */
  lemma PlayerNeverThrows(es: seq<PlayerEvent>, dir: Direction)
    ensures Play(Initial, es).Some?
    ensures ChangeTrack(Play(Initial, es).value, dir).Some?
  {
    PlayKeepsNonEmpty(Initial, es);
  }

  // ---------------------------------------------------------------- YouTube ids

  /** The pattern `[?&]v=([^&]+)` matches at position `i`. */
  predicate IdMatchAt(url: string, i: nat)
  {
    && i + 3 < |url|
    && (url[i] == '?' || url[i] == '&') && url[i + 1] == 'v' && url[i + 2] == '='
    && url[i + 3] != '&'
  }

  /** End of the run of non-`&` characters starting at `k` (the greedy `[^&]+`). */
  function RunEnd(url: string, k: nat): (e: nat)
    requires k <= |url|
    ensures k <= e <= |url|
    ensures e == |url| || url[e] == '&'
    ensures forall j :: k <= j < e ==> url[j] != '&'
    decreases |url| - k
  {
    if k == |url| || url[k] == '&' then k else RunEnd(url, k + 1)
  }

  /** The leftmost match position at or after `k`. */
  function FirstMatchFrom(url: string, k: nat): (r: Option<nat>)
    requires k <= |url|
    ensures r.None? <==> forall i :: k <= i < |url| ==> !IdMatchAt(url, i)
    ensures r.Some? ==> k <= r.value < |url| && IdMatchAt(url, r.value)
    ensures r.Some? ==> forall i :: k <= i < r.value ==> !IdMatchAt(url, i)
    decreases |url| - k
  {
    if k == |url| then None
    else if IdMatchAt(url, k) then Some(k)
    else FirstMatchFrom(url, k + 1)
  }

  /**
   * `getYouTubeID(url)`: the capture of the leftmost match of
   * `[?&]v=([^&]+)`: a non-empty run without `&` right after `?v=` or `&v=`,
   * running to the next `&` or the end; `null` when nothing matches.
   */
  function YouTubeId(url: string): (r: Option<string>)
    ensures r.None? <==> forall i :: 0 <= i < |url| ==> !IdMatchAt(url, i)
    ensures r.Some? ==> |r.value| > 0 && '&' !in r.value
    ensures r.Some? ==>
      exists i :: (
        && 0 <= i < |url| && IdMatchAt(url, i)
        && (forall j :: 0 <= j < i ==> !IdMatchAt(url, j))
        && (url[i..i + 3] == "?v=" || url[i..i + 3] == "&v=")
        && i + 3 + |r.value| <= |url| && url[i + 3..i + 3 + |r.value|] == r.value
        && (i + 3 + |r.value| == |url| || url[i + 3 + |r.value|] == '&'))
  {
    match FirstMatchFrom(url, 0)
    case None => None
    case Some(i) =>
      var e := RunEnd(url, i + 3);
      assert url[i..i + 3] == [url[i], 'v', '='];
      Some(url[i + 3..e])
  }
}
