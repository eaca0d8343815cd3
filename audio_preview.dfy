/** The audio preview: the two URLs it hands to the player and the thumbnail,
    and the player session whose fields the media element's event handlers
    overwrite one event at a time. The route path and the stored token are
    inputs; the audio element is reduced to the events it fires. */
module AudioPreview {
  import opened Wrappers
  import opened Query

  // ---------------------------------------------------------------- URLs

  /** A token is used only when JavaScript finds it truthy: present and non-empty. */
  predicate Truthy(token: Option<string>)
  {
    token.Some? && token.value != ""
  }

  /** The optional `&odpt=` parameter both URLs end with. */
  function TokenSuffix(token: Option<string>): string
  {
    if Truthy(token) then "&odpt=" + token.value else ""
  }

  /** The `odpt` parameter as the query reader sees it. */
  function TokenParams(token: Option<string>): seq<Param>
  {
    if Truthy(token) then [Param("odpt", token.value)] else []
  }

  /** The raw-media URL; the route path goes in as it is, unescaped. */
  function RawUrl(path: string, token: Option<string>): string
  {
    "/api/raw?path=" + path + TokenSuffix(token)
  }

  /** The medium-size thumbnail URL for the same path and token. */
  function ThumbnailUrl(path: string, token: Option<string>): string
  {
    "/api/thumbnail?path=" + path + "&size=medium" + TokenSuffix(token)
  }

  /** The token suffix is the `odpt` parameter written after a `&`. */
  lemma TokenSuffixRendered(token: Option<string>)
    ensures Truthy(token) ==> TokenSuffix(token) == "&" + Render(TokenParams(token))
    ensures !Truthy(token) ==> TokenSuffix(token) == ""
  {
    if Truthy(token) {
      RenderOne(Param("odpt", token.value));
      assert "&odpt=" == "&" + ("odpt" + "=");
    }
  }

  /** A first parameter followed by the token parameters, written out. */
  lemma ThenTokenRendered(first: Param, token: Option<string>)
    ensures Render([first] + TokenParams(token)) ==
            first.key + "=" + first.value + TokenSuffix(token)
  {
    RenderOne(first);
    TokenSuffixRendered(token);
    if Truthy(token) {
      RenderCons(first, TokenParams(token));
    } else {
      assert [first] + TokenParams(token) == [first];
    }
  }

  /** The raw URL is the `/api/raw` endpoint and its parameters written out. */
  lemma RawUrlRendered(path: string, token: Option<string>)
    ensures RawUrl(path, token) == "/api/raw" + "?" + Render([Param("path", path)] + TokenParams(token))
  {
    ThenTokenRendered(Param("path", path), token);
    var suffix := TokenSuffix(token);
    assert "/api/raw?path=" == "/api/raw" + "?" + ("path" + "=");
    assert "/api/raw?path=" + path + suffix == "/api/raw" + "?" + ("path" + "=" + path + suffix);
  }

  /** The thumbnail URL is the `/api/thumbnail` endpoint and its parameters
      written out. */
  lemma ThumbnailUrlRendered(path: string, token: Option<string>)
    ensures ThumbnailUrl(path, token) ==
            "/api/thumbnail" + "?" + Render([Param("path", path), Param("size", "medium")] + TokenParams(token))
  {
    var rest := [Param("size", "medium")] + TokenParams(token);
    ThenTokenRendered(Param("size", "medium"), token);
    RenderCons(Param("path", path), rest);
    assert [Param("path", path), Param("size", "medium")] + TokenParams(token) == [Param("path", path)] + rest;
    var suffix := TokenSuffix(token);
    ThumbnailText(path, suffix);
  }

  /** The literal text of the thumbnail URL, regrouped. */
  lemma ThumbnailText(path: string, suffix: string)
    ensures "/api/thumbnail?path=" + path + "&size=medium" + suffix ==
            "/api/thumbnail" + "?" + ("path" + "=" + path + "&" + ("size" + "=" + "medium" + suffix))
  {
    assert "/api/thumbnail?path=" == "/api/thumbnail" + "?" + ("path" + "=");
    assert "&size=medium" == "&" + ("size" + "=" + "medium");
  }

  /** The parameters both URLs carry can be read back unambiguously when
      neither the path nor the token holds `&` or `#`. */
  lemma PlainParams(path: string, token: Option<string>)
    requires '&' !in path && '#' !in path
    requires token.Some? ==> '&' !in token.value && '#' !in token.value
    ensures forall i :: 0 <= i < |[Param("path", path)] + TokenParams(token)| ==>
              Plain(([Param("path", path)] + TokenParams(token))[i])
    ensures forall i :: 0 <= i < |[Param("path", path), Param("size", "medium")] + TokenParams(token)| ==>
              Plain(([Param("path", path), Param("size", "medium")] + TokenParams(token))[i])
  {
    assert Plain(Param("path", path)) && Plain(Param("size", "medium"));
    if Truthy(token) {
      assert Plain(Param("odpt", token.value));
    }
  }

  /** Read back, the raw URL is the `/api/raw` endpoint with a `path`
      parameter holding the route path, followed by `odpt` exactly when the
      token is truthy. Because the path is not escaped this holds only for
      paths and tokens without `&` and `#`. */
  lemma RawUrlQuery(path: string, token: Option<string>)
    requires '&' !in path && '#' !in path
    requires token.Some? ==> '&' !in token.value && '#' !in token.value
    ensures Endpoint(RawUrl(path, token)) == "/api/raw"
    ensures Params(RawUrl(path, token)) == [Param("path", path)] + TokenParams(token)
    ensures (exists i :: 0 <= i < |Params(RawUrl(path, token))| &&
              Params(RawUrl(path, token))[i].key == "odpt") <==> Truthy(token)
  {
    var ps := [Param("path", path)] + TokenParams(token);
    RawUrlRendered(path, token);
    PlainParams(path, token);
    ReadRendered("/api/raw", ps);
    assert ps[0].key == "path" != "odpt";
    if Truthy(token) {
      assert ps[1].key == "odpt";
    }
  }

  /** Read back, the thumbnail URL is the `/api/thumbnail` endpoint with the
      same `path`, then `size=medium`, then the same optional `odpt`. */
  lemma ThumbnailUrlQuery(path: string, token: Option<string>)
    requires '&' !in path && '#' !in path
    requires token.Some? ==> '&' !in token.value && '#' !in token.value
    ensures Endpoint(ThumbnailUrl(path, token)) == "/api/thumbnail"
    ensures Params(ThumbnailUrl(path, token)) ==
            [Param("path", path), Param("size", "medium")] + TokenParams(token)
  {
    ThumbnailUrlRendered(path, token);
    PlainParams(path, token);
    ReadRendered("/api/thumbnail", [Param("path", path), Param("size", "medium")] + TokenParams(token));
  }

  /** Both URLs are their tokenless form followed by one and the same token
      suffix, so two tokens change only that suffix. */
  lemma TokenOnlyChangesSuffix(path: string, token: Option<string>)
    ensures RawUrl(path, token) == RawUrl(path, None) + TokenSuffix(token)
    ensures ThumbnailUrl(path, token) == ThumbnailUrl(path, None) + TokenSuffix(token)
    ensures TokenSuffix(token) == "" <==> !Truthy(token)
  {
    assert RawUrl(path, None) == "/api/raw?path=" + path;
    assert ThumbnailUrl(path, None) == "/api/thumbnail?path=" + path + "&size=medium";
    if Truthy(token) {
      assert |TokenSuffix(token)| >= 6;
    }
  }

  /** The path is not escaped: a path ending in `&odpt=` and a token gives
      the same raw URL as the shorter path with that token. */
  lemma PathIsNotEscaped(path: string, token: string)
    requires token != ""
    ensures RawUrl(path + "&odpt=" + token, None) == RawUrl(path, Some(token))
  {
    assert TokenSuffix(Some(token)) == "&odpt=" + token;
    assert TokenSuffix(None) == "";
  }

  /** A `#` in the route path starts a fragment: everything after it, the
      token included, is lost to a reader of the raw URL, and only the path
      up to the `#` is left. */
  lemma FragmentHidesToken(path: string, fragment: string, token: Option<string>)
    requires '&' !in path && '#' !in path
    ensures Params(RawUrl(path + "#" + fragment, token)) == [Param("path", path)]
  {
    var head := "/api/raw?path=" + path;
    var tail := fragment + TokenSuffix(token);
    Regroup("/api/raw?path=", path, fragment, TokenSuffix(token));
    assert head == RawUrl(path, None);
    RawUrlQuery(path, None);
    FragmentIgnored(head, tail);
  }

  /** The same for the thumbnail URL: `size=medium` and the token are lost. */
  lemma FragmentHidesSize(path: string, fragment: string, token: Option<string>)
    requires '&' !in path && '#' !in path
    ensures Params(ThumbnailUrl(path + "#" + fragment, token)) == [Param("path", path)]
  {
    var head := "/api/thumbnail?path=" + path;
    var rest := "&size=medium" + TokenSuffix(token);
    var tail := fragment + rest;
    assert ThumbnailUrl(path + "#" + fragment, token) == "/api/thumbnail?path=" + (path + "#" + fragment) + rest;
    Regroup("/api/thumbnail?path=", path, fragment, rest);
    ThumbnailPathOnly(path);
    FragmentIgnored(head, tail);
  }

  /** Moving a `#` in the middle of a URL to the top level of the sum. */
  lemma Regroup(prefix: string, path: string, fragment: string, rest: string)
    ensures prefix + (path + "#" + fragment) + rest == (prefix + path) + "#" + (fragment + rest)
  {
  }

  /** The thumbnail URL cut short after its path reads as that path alone. */
  lemma ThumbnailPathOnly(path: string)
    requires '&' !in path && '#' !in path
    ensures Params("/api/thumbnail?path=" + path) == [Param("path", path)]
  {
    RenderOne(Param("path", path));
    assert "/api/thumbnail?path=" == "/api/thumbnail" + "?" + ("path" + "=");
    assert "/api/thumbnail?path=" + path == "/api/thumbnail" + "?" + ("path" + "=" + path);
    ReadRendered("/api/thumbnail", [Param("path", path)]);
  }

  // ------------------------------------------------------- player state

  datatype PlayerState = Loading | Ready | Playing | Paused

  /** What reaches the session: the audio element's events, named after the
      handler properties, and the thumbnail image's `onError`. */
  datatype Event =
    | OnCanPlay | OnEnded | OnPause | OnPlay | OnPlaying
    | OnSeeking | OnWaiting | OnError
    | OnVolumeChange(volume: real)
    | OnThumbnailError

  /** The fixed status a status event sets, whatever the status was before. */
  function StatusFor(e: Event): (s: Option<PlayerState>)
    ensures s.None? <==> e.OnVolumeChange? || e.OnThumbnailError?
  {
    match e
    case OnCanPlay => Some(Ready)
    case OnEnded => Some(Paused)
    case OnPause => Some(Paused)
    case OnPlay => Some(Playing)
    case OnPlaying => Some(Playing)
    case OnSeeking => Some(Loading)
    case OnWaiting => Some(Loading)
    case OnError => Some(Paused)
    case OnVolumeChange(_) => None
    case OnThumbnailError => None
  }

  predicate IsStatusEvent(e: Event)
  {
    StatusFor(e).Some?
  }

  /** The status after the handlers have seen `h`, starting from `Loading`. */
  function FinalStatus(h: seq<Event>): PlayerState
    decreases |h|
  {
    if h == [] then Loading
    else
      match StatusFor(h[|h| - 1])
      case Some(s) => s
      case None => FinalStatus(h[..|h| - 1])
  }

  /** The volume after the handlers have seen `h`, starting from 1. */
  function FinalVolume(h: seq<Event>): (v: real)
    ensures v == 1.0 || exists i :: 0 <= i < |h| && h[i].OnVolumeChange? && h[i].volume == v
    ensures (forall i :: 0 <= i < |h| ==> !h[i].OnVolumeChange?) ==> v == 1.0
    decreases |h|
  {
    if h == [] then 1.0
    else if h[|h| - 1].OnVolumeChange? then h[|h| - 1].volume
    else FinalVolume(h[..|h| - 1])
  }

  /** Whether the thumbnail has failed to load, starting from false. */
  predicate ThumbnailBroken(h: seq<Event>)
    decreases |h|
  {
    h != [] && (h[|h| - 1].OnThumbnailError? || ThumbnailBroken(h[..|h| - 1]))
  }

  predicate NoStatusEvent(h: seq<Event>)
  {
    forall j :: 0 <= j < |h| ==> !IsStatusEvent(h[j])
  }

  /** `h[i]` is the last status event of `h`. */
  predicate IsLastStatusEvent(h: seq<Event>, i: int)
  {
    0 <= i < |h| && IsStatusEvent(h[i]) &&
    forall j :: i < j < |h| ==> !IsStatusEvent(h[j])
  }

  /** Without a status event the status stays `Loading`. */
  lemma {:induction false} FinalStatusWithoutStatusEvent(h: seq<Event>)
    requires NoStatusEvent(h)
    ensures FinalStatus(h) == Loading
    decreases |h|
  {
    if h != [] {
      var n := |h| - 1;
      assert !IsStatusEvent(h[n]);
      assert forall j :: 0 <= j < n ==> h[..n][j] == h[j];
      FinalStatusWithoutStatusEvent(h[..n]);
    }
  }

  /** The last status event decides the status. */
  lemma {:induction false} FinalStatusAtLast(h: seq<Event>, i: int)
    requires IsLastStatusEvent(h, i)
    ensures FinalStatus(h) == StatusFor(h[i]).value
    decreases |h|
  {
    var n := |h| - 1;
    if i < n {
      assert !IsStatusEvent(h[n]);
      var p := h[..n];
      assert forall j :: 0 <= j < n ==> p[j] == h[j];
      assert IsLastStatusEvent(p, i);
      FinalStatusAtLast(p, i);
    }
  }

  /** A history with some status event has a last one. */
  lemma {:induction false} LastStatusEventExists(h: seq<Event>)
    requires !NoStatusEvent(h)
    ensures exists i :: IsLastStatusEvent(h, i)
    decreases |h|
  {
    var n := |h| - 1;
    if IsStatusEvent(h[n]) {
      assert IsLastStatusEvent(h, n);
    } else {
      var p := h[..n];
      assert forall j :: 0 <= j < n ==> p[j] == h[j];
      var k :| 0 <= k < |h| && IsStatusEvent(h[k]);
      assert k < n && IsStatusEvent(p[k]);
      LastStatusEventExists(p);
      var i :| IsLastStatusEvent(p, i);
      assert IsLastStatusEvent(h, i);
    }
  }

  /** The status is the one mapped from the last status event, or `Loading`
      when there was none; and a last status event exists whenever some
      status event does. */
  lemma FinalStatusIsLastStatusEvent(h: seq<Event>)
    ensures NoStatusEvent(h) ==> FinalStatus(h) == Loading
    ensures forall i :: IsLastStatusEvent(h, i) ==> FinalStatus(h) == StatusFor(h[i]).value
    ensures !NoStatusEvent(h) ==> exists i :: IsLastStatusEvent(h, i)
  {
    if NoStatusEvent(h) {
      FinalStatusWithoutStatusEvent(h);
    } else {
      LastStatusEventExists(h);
    }
    forall i | IsLastStatusEvent(h, i) ensures FinalStatus(h) == StatusFor(h[i]).value {
      FinalStatusAtLast(h, i);
    }
  }

  /** A later history decides the status unless it holds no status event. */
  lemma {:induction false} FinalStatusAppend(a: seq<Event>, b: seq<Event>)
    ensures FinalStatus(a + b) == if NoStatusEvent(b) then FinalStatus(a) else FinalStatus(b)
    decreases |b|
  {
    if b == [] {
      assert a + b == a;
    } else {
      var n := |b| - 1;
      assert (a + b)[..|a + b| - 1] == a + b[..n];
      assert (a + b)[|a + b| - 1] == b[n];
      FinalStatusAppend(a, b[..n]);
      assert forall j :: 0 <= j < n ==> b[..n][j] == b[j];
      if !IsStatusEvent(b[n]) {
        assert NoStatusEvent(b) <==> NoStatusEvent(b[..n]);
      }
    }
  }

  /** A volume change, a thumbnail error or any other non-status event
      leaves the status as it was; a status event leaves the volume as it was;
      only a thumbnail error or an earlier one makes the thumbnail broken. */
  lemma EventsAreIndependent(h: seq<Event>, e: Event)
    ensures !IsStatusEvent(e) ==> FinalStatus(h + [e]) == FinalStatus(h)
    ensures !e.OnVolumeChange? ==> FinalVolume(h + [e]) == FinalVolume(h)
    ensures e.OnVolumeChange? ==> FinalVolume(h + [e]) == e.volume
    ensures ThumbnailBroken(h + [e]) <==> ThumbnailBroken(h) || e.OnThumbnailError?
  {
    assert (h + [e])[..|h|] == h;
  }

  /** The example sequence: from any history, can-play, play and pause give
      `Ready`, `Playing` and `Paused` in turn; seeking and waiting always give
      `Loading`, from `Playing` too. */
  lemma CanPlayPlayPause(h: seq<Event>)
    ensures FinalStatus(h + [OnCanPlay]) == Ready
    ensures FinalStatus(h + [OnCanPlay, OnPlay]) == Playing
    ensures FinalStatus(h + [OnCanPlay, OnPlay, OnPause]) == Paused
    ensures FinalStatus(h + [OnSeeking]) == Loading && FinalStatus(h + [OnWaiting]) == Loading
  {
  }

  /** The thumbnail, once broken, stays broken, and it is broken exactly when
      some thumbnail error was seen. */
  lemma {:induction false} ThumbnailBrokenMonotone(a: seq<Event>, b: seq<Event>)
    ensures ThumbnailBroken(a) ==> ThumbnailBroken(a + b)
    ensures ThumbnailBroken(b) <==> exists i :: 0 <= i < |b| && b[i].OnThumbnailError?
    decreases |b|
  {
    if b != [] {
      var n := |b| - 1;
      assert (a + b)[..|a + b| - 1] == a + b[..n];
      assert (a + b)[|a + b| - 1] == b[n];
      ThumbnailBrokenMonotone(a, b[..n]);
      assert forall j :: 0 <= j < n ==> b[..n][j] == b[j];
      if ThumbnailBroken(b[..n]) {
        var i :| 0 <= i < n && b[..n][i].OnThumbnailError?;
        assert b[i].OnThumbnailError?;
      }
    } else {
      assert a + b == a;
    }
  }

  /** A history of thumbnail errors only leaves status and volume initial. */
  lemma {:induction false} OnlyThumbnailErrors(h: seq<Event>)
    requires forall i :: 0 <= i < |h| ==> h[i].OnThumbnailError?
    ensures FinalStatus(h) == Loading && FinalVolume(h) == 1.0
    decreases |h|
  {
    if h != [] {
      var n := |h| - 1;
      assert forall j :: 0 <= j < n ==> h[..n][j] == h[j];
      OnlyThumbnailErrors(h[..n]);
    }
  }

  // --------------------------------------------------------- appearance

  /** What the status and the broken flag show: the loading overlay is opaque
      or transparent; the thumbnail image or, once broken, the music icon is
      shown; whichever is shown spins while playing. */
  datatype Appearance = Appearance(
    overlayOpaque: bool, showsThumbnail: bool, thumbnailSpins: bool, iconSpins: bool)

  function AppearanceOf(status: PlayerState, broken: bool): (a: Appearance)
    ensures a.showsThumbnail != broken
    ensures a.thumbnailSpins ==> a.showsThumbnail && !a.iconSpins
  {
    Appearance(
      overlayOpaque := status == Loading,
      showsThumbnail := !broken,
      thumbnailSpins := !broken && status == Playing,
      iconSpins := broken && status == Playing)
  }

  /** After the handlers have seen `h`, the loading overlay is opaque exactly
      when no status event came or the last one was seeking or waiting. */
  lemma OverlayAfter(h: seq<Event>)
    ensures AppearanceOf(FinalStatus(h), ThumbnailBroken(h)).overlayOpaque <==>
            NoStatusEvent(h) ||
            exists i :: IsLastStatusEvent(h, i) && (h[i].OnSeeking? || h[i].OnWaiting?)
  {
    FinalStatusIsLastStatusEvent(h);
  }

  /** After the handlers have seen `h`, the image or the icon spins exactly
      when the last status event was play or playing. */
  lemma SpinAfter(h: seq<Event>)
    ensures
      var a := AppearanceOf(FinalStatus(h), ThumbnailBroken(h));
      a.thumbnailSpins || a.iconSpins <==>
      exists i :: IsLastStatusEvent(h, i) && (h[i].OnPlay? || h[i].OnPlaying?)
  {
    FinalStatusIsLastStatusEvent(h);
  }

  /** After the handlers have seen `h`, the fallback icon replaces the image
      exactly when some thumbnail error came. */
  lemma FallbackIconAfter(h: seq<Event>)
    ensures !AppearanceOf(FinalStatus(h), ThumbnailBroken(h)).showsThumbnail <==>
            exists i :: 0 <= i < |h| && h[i].OnThumbnailError?
  {
    ThumbnailBrokenMonotone([], h);
  }

  // ------------------------------------------------------------ session

  /** Whether `e` reaches a handler: audio events only when the handlers
      were attached, the thumbnail's error always. */
  predicate Reaches(listening: bool, e: Event)
  {
    listening || e.OnThumbnailError?
  }

  /** The history after one more event: extended by it when it reaches a handler. */
  function Extend(h: seq<Event>, e: Event, listening: bool): seq<Event>
  {
    if Reaches(listening, e) then h + [e] else h
  }

  /** The history `h` after a sequence of events, one at a time. */
  function Replay(h: seq<Event>, events: seq<Event>, listening: bool): (r: seq<Event>)
    ensures |r| <= |h| + |events|
    decreases |events|
  {
    if events == [] then h
    else
      var n := |events| - 1;
      Extend(Replay(h, events[..n], listening), events[n], listening)
  }

  /** One more event is one more step of the replay. */
  lemma ReplayStep(h: seq<Event>, events: seq<Event>, i: int, listening: bool)
    requires 0 <= i < |events|
    ensures Replay(h, events[..i + 1], listening) ==
            Extend(Replay(h, events[..i], listening), events[i], listening)
  {
    assert events[..i + 1][..i] == events[..i];
    assert events[..i + 1][i] == events[i];
  }

  /** With the handlers attached every event is heard, in order. */
  lemma {:induction false} ReplayWhileListening(h: seq<Event>, events: seq<Event>)
    ensures Replay(h, events, true) == h + events
    decreases |events|
  {
    if events == [] {
      assert h + events == h;
    } else {
      var n := |events| - 1;
      ReplayWhileListening(h, events[..n]);
      assert h + events[..n] + [events[n]] == h + events;
    }
  }

  /** Every thumbnail error reaches its handler, so the thumbnail is broken
      after a replay exactly when it was before or one of the events was a
      thumbnail error. */
  lemma {:induction false} ThumbnailBrokenAfter(a: seq<Event>, events: seq<Event>, listening: bool)
    ensures ThumbnailBroken(Replay(a, events, listening)) == (ThumbnailBroken(a) || ThumbnailBroken(events))
    decreases |events|
  {
    if events != [] {
      var n := |events| - 1;
      var e := events[n];
      var r := Replay(a, events[..n], listening);
      ThumbnailBrokenAfter(a, events[..n], listening);
      EventsAreIndependent(events[..n], e);
      assert events[..n] + [e] == events;
      EventsAreIndependent(r, e);
    }
  }

  /** One mounted audio preview. `listening` records whether the effect found
      an audio element and attached the handlers; `heard` is the history of
      events that reached a handler. */
  class Session {
    const audioSrc: string
    const thumbnail: string
    var playerStatus: PlayerState
    var playerVolume: real
    var brokenThumbnail: bool
    var effectRan: bool
    var listening: bool
    ghost var heard: seq<Event>

    ghost predicate Valid()
      reads this
    {
      && playerStatus == FinalStatus(heard)
      && playerVolume == FinalVolume(heard)
      && brokenThumbnail == ThumbnailBroken(heard)
      && (listening ==> effectRan)
      && (!listening ==> forall i :: 0 <= i < |heard| ==> heard[i].OnThumbnailError?)
    }

    /** What the component shows for the current state. */
    function View(): (v: Appearance)
      reads this
      requires Valid()
      ensures v == AppearanceOf(FinalStatus(heard), ThumbnailBroken(heard))
    {
      AppearanceOf(playerStatus, brokenThumbnail)
    }

    /** Mounting: both URLs are fixed by the path and token; the status is
        `Loading`, the volume 1 and the thumbnail not broken. */
    constructor (path: string, token: Option<string>)
      ensures Valid()
      ensures audioSrc == RawUrl(path, token) && thumbnail == ThumbnailUrl(path, token)
      ensures playerStatus == Loading && playerVolume == 1.0 && !brokenThumbnail
      ensures !effectRan && !listening && heard == []
    {
      audioSrc := RawUrl(path, token);
      thumbnail := ThumbnailUrl(path, token);
      playerStatus := Loading;
      playerVolume := 1.0;
      brokenThumbnail := false;
      effectRan := false;
      listening := false;
      heard := [];
    }

    /** The mount effect, which runs once: without an audio element it
        returns before attaching anything. */
    method RunEffect(audioPresent: bool)
      requires Valid() && !effectRan
      modifies this
      ensures Valid()
      ensures effectRan && listening == audioPresent
      ensures playerStatus == old(playerStatus) && playerVolume == old(playerVolume)
      ensures brokenThumbnail == old(brokenThumbnail) && heard == old(heard)
    {
      effectRan := true;
      if !audioPresent {
        return;
      }
      listening := true;
    }

    /** One event: status events set their fixed status, a volume change
        copies the element's volume, a thumbnail error marks the thumbnail
        broken; audio events are ignored when no handler was attached. */
    method Handle(e: Event)
      requires Valid()
      modifies this
      ensures Valid()
      ensures listening == old(listening) && effectRan == old(effectRan)
      ensures heard == Extend(old(heard), e, listening)
      ensures playerStatus == if listening && IsStatusEvent(e) then StatusFor(e).value else old(playerStatus)
      ensures playerVolume == if listening && e.OnVolumeChange? then e.volume else old(playerVolume)
      ensures brokenThumbnail == (old(brokenThumbnail) || e.OnThumbnailError?)
    {
      EventsAreIndependent(heard, e);
      if e.OnThumbnailError? {
        brokenThumbnail := true;
      } else if listening {
        match e
        case OnCanPlay => playerStatus := Ready;
        case OnEnded => playerStatus := Paused;
        case OnPause => playerStatus := Paused;
        case OnPlay => playerStatus := Playing;
        case OnPlaying => playerStatus := Playing;
        case OnSeeking => playerStatus := Loading;
        case OnWaiting => playerStatus := Loading;
        case OnError => playerStatus := Paused;
        case OnVolumeChange(v) => playerVolume := v;
      }
      if Reaches(listening, e) {
        heard := heard + [e];
      }
    }

    /** A sequence of events, one at a time. Without handlers the status
        stays `Loading` and the volume 1; with them the status is that of
        the last status event, if any. */
    method HandleAll(events: seq<Event>)
      requires Valid()
      modifies this
      ensures Valid()
      ensures listening == old(listening) && effectRan == old(effectRan)
      ensures heard == Replay(old(heard), events, listening)
      ensures !listening ==> playerStatus == Loading && playerVolume == 1.0
      ensures listening && !NoStatusEvent(events) ==> playerStatus == FinalStatus(events)
      ensures listening && NoStatusEvent(events) ==> playerStatus == old(playerStatus)
      ensures brokenThumbnail == (old(brokenThumbnail) || ThumbnailBroken(events))
    {
      for i := 0 to |events|
        invariant Valid()
        invariant listening == old(listening) && effectRan == old(effectRan)
        invariant heard == Replay(old(heard), events[..i], listening)
      {
        ReplayStep(old(heard), events, i, listening);
        Handle(events[i]);
      }
      assert events[..|events|] == events;
      if !listening {
        OnlyThumbnailErrors(heard);
      } else {
        ReplayWhileListening(old(heard), events);
        FinalStatusAppend(old(heard), events);
      }
      ThumbnailBrokenAfter(old(heard), events, listening);
    }
  }

  /** A preview whose element plays through can-play, play and pause. */
  method ExampleSession()
  {
    var s := new Session("/Music/song.mp3", None);
    s.RunEffect(true);
    s.Handle(OnCanPlay);
    assert s.playerStatus == Ready && !s.View().overlayOpaque;
    s.Handle(OnPlay);
    assert s.playerStatus == Playing && s.View().thumbnailSpins;
    s.Handle(OnVolumeChange(0.5));
    assert s.playerStatus == Playing && s.playerVolume == 0.5;
    s.Handle(OnThumbnailError);
    assert s.View().iconSpins && !s.View().showsThumbnail;
    s.Handle(OnPause);
    assert s.playerStatus == Paused && s.brokenThumbnail;
  }
}
