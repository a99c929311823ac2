/** The search screen's state and the three ways it changes: typing into the
    search field, a fetch that completes (successfully or not), and a tap on
    a swatch. A fetch is modelled by its outcome only; the request itself,
    the JSON decoding and the overlapping of fetches are not modelled. */
module PaletteScreen {
  import opened Wrappers

  /** A palette as the API returns it: its ordered hex colour strings. */
  datatype Palette = Palette(colors: seq<string>)

  datatype Screen = Screen(
    searchText: string,
    palettes: seq<Palette>,
    selectedColor: Option<string>)

  /** The three ways a fetch can fail: no URL could be built, the transport
      failed, or the body did not decode as a list of palettes. */
  datatype FetchError = BadUrl | Transport | Decode

  datatype FetchResult = Fetched(palettes: seq<Palette>) | Failed(error: FetchError)

  /** The screen when it first appears: an empty search field, no
      palettes and nothing selected. */
  function Initial(): (st: Screen)
    ensures st.searchText == [] && st.palettes == [] && st.selectedColor.None?
  {
    Screen("", [], None)
  }

  /** Typing into the text field rebinds the search text only. */
  function EditSearch(st: Screen, text: string): (st': Screen)
    ensures st'.searchText == text
    ensures st'.palettes == st.palettes && st'.selectedColor == st.selectedColor
  {
    st.(searchText := text)
  }

  /** A completed fetch: a result replaces the palette list wholesale; an
      error is logged and leaves the screen as it was. */
  function CompleteFetch(st: Screen, result: FetchResult): (st': Screen)
    ensures result.Failed? ==> st' == st
    ensures result.Fetched? ==> st'.palettes == result.palettes
    ensures st'.searchText == st.searchText && st'.selectedColor == st.selectedColor
  {
    match result
    case Fetched(ps) => st.(palettes := ps)
    case Failed(_) => st
  }

  /** The Go button: fetch with the current search text and apply the
      outcome once it arrives. `fetch` stands for the network round trip. */
  function PressGo(st: Screen, fetch: string -> FetchResult): (st': Screen)
    ensures st'.searchText == st.searchText && st'.selectedColor == st.selectedColor
    ensures fetch(st.searchText).Fetched? ==> st'.palettes == fetch(st.searchText).palettes
    ensures fetch(st.searchText).Failed? ==> st' == st
  {
    CompleteFetch(st, fetch(st.searchText))
  }

  /** A tap on a swatch records its hex string as the selection, and does
      nothing else. */
  function TapSwatch(st: Screen, hex: string): (st': Screen)
    ensures st'.selectedColor == Some(hex)
    ensures st'.searchText == st.searchText && st'.palettes == st.palettes
  {
    st.(selectedColor := Some(hex))
  }

  // ---------------------------------------------------------------------
  // Sequences of events

  datatype Event = Typed(text: string) | Completed(result: FetchResult) | Tapped(hex: string)

  function Step(st: Screen, e: Event): Screen {
    match e
    case Typed(text) => EditSearch(st, text)
    case Completed(result) => CompleteFetch(st, result)
    case Tapped(hex) => TapSwatch(st, hex)
  }

  /** The screen after the events, oldest first. */
  function Run(st: Screen, events: seq<Event>): Screen
    decreases |events|
  {
    if events == [] then st
    else Step(Run(st, events[..|events| - 1]), events[|events| - 1])
  }

  /** The palette list of the most recent successful fetch, if any. */
  function LastFetched(events: seq<Event>): Option<seq<Palette>>
    decreases |events|
  {
    if events == [] then None
    else
      var e := events[|events| - 1];
      if e.Completed? && e.result.Fetched? then Some(e.result.palettes)
      else LastFetched(events[..|events| - 1])
  }

  /** The hex string of the most recent tap, if any. */
  function LastTapped(events: seq<Event>): Option<string>
    decreases |events|
  {
    if events == [] then None
    else
      var e := events[|events| - 1];
      if e.Tapped? then Some(e.hex) else LastTapped(events[..|events| - 1])
  }

  /** The text of the most recent edit, if any. */
  function LastTyped(events: seq<Event>): Option<string>
    decreases |events|
  {
    if events == [] then None
    else
      var e := events[|events| - 1];
      if e.Typed? then Some(e.text) else LastTyped(events[..|events| - 1])
  }

  /** The palettes on screen are those of the last successful fetch; failed
      fetches, edits and taps never touch them. */
  lemma {:induction false} PalettesAreLastFetched(st: Screen, events: seq<Event>)
    ensures Run(st, events).palettes == LastFetched(events).GetOr(st.palettes)
    decreases |events|
  {
    if events != [] {
      PalettesAreLastFetched(st, events[..|events| - 1]);
    }
  }

  /** The selection is the last tapped swatch; fetches and edits never
      touch it. */
  lemma {:induction false} SelectionIsLastTapped(st: Screen, events: seq<Event>)
    ensures Run(st, events).selectedColor
         == if LastTapped(events).Some? then LastTapped(events) else st.selectedColor
    decreases |events|
  {
    if events != [] {
      SelectionIsLastTapped(st, events[..|events| - 1]);
    }
  }

  /** The search text is the last one typed; fetches and taps never touch
      it. */
  lemma {:induction false} SearchTextIsLastTyped(st: Screen, events: seq<Event>)
    ensures Run(st, events).searchText == LastTyped(events).GetOr(st.searchText)
    decreases |events|
  {
    if events != [] {
      SearchTextIsLastTyped(st, events[..|events| - 1]);
    }
  }

  /** From launch, the palettes on screen are those of the last successful
      fetch, or none at all. */
  lemma PalettesFromLaunch(events: seq<Event>)
    ensures Run(Initial(), events).palettes == LastFetched(events).GetOr([])
  {
    PalettesAreLastFetched(Initial(), events);
  }

  /** Pressing Go is the arrival of the fetch made with the current text. */
  lemma PressGoIsCompletion(st: Screen, fetch: string -> FetchResult)
    ensures PressGo(st, fetch) == Run(st, [Completed(fetch(st.searchText))])
  {
    assert [Completed(fetch(st.searchText))][..0] == [];
  }

  /** Without a successful fetch among them, no sequence of events changes
      the palettes: errors are absorbed. */
  lemma FailuresKeepPalettes(st: Screen, events: seq<Event>)
    requires forall k :: 0 <= k < |events| ==> !(events[k].Completed? && events[k].result.Fetched?)
    ensures Run(st, events).palettes == st.palettes
  {
    PalettesAreLastFetched(st, events);
    NoFetchNoLast(events);
  }

  lemma {:induction false} NoFetchNoLast(events: seq<Event>)
    requires forall k :: 0 <= k < |events| ==> !(events[k].Completed? && events[k].result.Fetched?)
    ensures LastFetched(events) == None
    decreases |events|
  {
    if events != [] {
      NoFetchNoLast(events[..|events| - 1]);
    }
  }
}
