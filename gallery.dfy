/**
 * GalleryApp's state: the rotation buffer `display`, the 20 frames of the
 * 4 x 5 grid, the `playing` flag with the replacement timeline, and the
 * enabled/disabled state of the `play` and `get` controls.
 */
module Gallery {
  import opened Sequences
  import opened Rotation
  import opened Catalog
  import opened Wrappers

  const FRAMES := 20
  const ROWS := 4
  const COLUMNS := 5

  const DEFAULT_IMG := "https://garden.spoonflower.com/c/12984962/p/f/m/EH5aWJbn_LhuOlWypO5l_"
    + "PaHuLwc4GUac9wRjQv8xJ-7aocY_A8rq3E/Solid%20graphite%20dark%20grey.jpg"

  const INITIAL_MESSAGE := "Type in a term, select a media type, then click the button."
  const GETTING_MESSAGE := "Getting images..."
  const FAILED_MESSAGE := "Last attempt to get images failed..."

  /** The grid cell (column, row) of frame `i`: frames are added row by row. */
  function Cell(i: nat): (cell: (nat, nat))
    requires i < FRAMES
    ensures cell.0 < COLUMNS && cell.1 < ROWS
  {
    (i % COLUMNS, i / COLUMNS)
  }

  /** The frame shown in column `c` of row `r`. */
  function FrameIndex(c: nat, r: nat): (i: nat)
    requires c < COLUMNS && r < ROWS
    ensures i < FRAMES
  {
    r * COLUMNS + c
  }

  /** Each of the 20 cells shows the frame whose cell it is. */
  lemma CellOfFrameIndex(c: nat, r: nat)
    requires c < COLUMNS && r < ROWS
    ensures Cell(FrameIndex(c, r)) == (c, r)
  {}

  /** Each of the 20 frames sits in the cell that indexes it back. */
  lemma FrameIndexOfCell(i: nat)
    requires i < FRAMES
    ensures FrameIndex(Cell(i).0, Cell(i).1) == i
  {}

  /** The coarse session state that the control flags encode. */
  datatype Session = Idle | Loading | Ready | Playing

  /** A progress-bar value as the fraction `num / den`. */
  datatype Ratio = Ratio(num: nat, den: nat)

  class GalleryApp {
    /** The rotation buffer; meaningful only when `hasDisplay` (non-null in the source). */
    var display: seq<string>
    var hasDisplay: bool
    /** The image each frame shows; fixed length, updated in place. */
    const frames: array<string>
    /** The grid cell (column, row) each frame was placed in. */
    const cells: seq<(nat, nat)>
    var playing: bool
    /** Whether the replacement timeline is running. */
    var timelineRunning: bool
    var playDisabled: bool
    var getDisabled: bool
    var message: string
    var alertText: string
    var progress: Ratio

    /**
     * The object invariant: the flags are in one of the four session
     * configurations, a loaded buffer holds at least 21 distinct handles and
     * every frame shows one of them, and before any load every frame shows
     * the default image.
     */
    ghost predicate Valid()
      reads this, frames
    {
      frames.Length == FRAMES && |cells| == FRAMES &&
      (forall i :: 0 <= i < FRAMES ==> cells[i] == Cell(i)) &&
      playing == timelineRunning &&
      (getDisabled ==> playDisabled && !playing) &&
      (playDisabled ==> !playing) &&
      (!getDisabled && playDisabled <==> !getDisabled && !hasDisplay) &&
      (hasDisplay ==> |display| >= MIN_RESULTS && NoDuplicates(display) &&
                      forall i :: 0 <= i < FRAMES ==> frames[i] in display) &&
      (!hasDisplay ==> forall i :: 0 <= i < FRAMES ==> frames[i] == DEFAULT_IMG)
    }

    function CurrentSession(): Session
      reads this
    {
      if getDisabled then Loading
      else if playDisabled then Idle
      else if playing then Playing
      else Ready
    }

    /** The constructor together with init(): 20 default frames in a 4 x 5 grid, play disabled. */
    constructor ()
      ensures Valid() && fresh(frames)
      ensures CurrentSession() == Idle && !hasDisplay
      ensures forall i :: 0 <= i < FRAMES ==> frames[i] == DEFAULT_IMG && cells[i] == Cell(i)
      ensures message == INITIAL_MESSAGE && progress == Ratio(0, 1)
    {
      var views := new string[FRAMES];
      var placed: seq<(nat, nat)> := [];
      for r := 0 to ROWS
        invariant |placed| == r * COLUMNS
        invariant forall i :: 0 <= i < |placed| ==> placed[i] == Cell(i) && views[i] == DEFAULT_IMG
      {
        for c := 0 to COLUMNS
          invariant |placed| == r * COLUMNS + c
          invariant forall i :: 0 <= i < |placed| ==> placed[i] == Cell(i) && views[i] == DEFAULT_IMG
        {
          CellOfFrameIndex(c, r);
          views[|placed|] := DEFAULT_IMG;
          placed := placed + [(c, r)];
        }
      }
      frames := views;
      cells := placed;
      display := [];
      hasDisplay := false;
      playing, timelineRunning := false, false;
      playDisabled, getDisabled := true, false;
      message := INITIAL_MESSAGE;
      alertText := "";
      progress := Ratio(0, 1);
    }

    /** Stops the replacement timeline; a second pause changes nothing. */
    method Pause()
      requires Valid()
      modifies this
      ensures Valid()
      ensures !playing && !timelineRunning
      ensures display == old(display) && hasDisplay == old(hasDisplay)
      ensures playDisabled == old(playDisabled) && getDisabled == old(getDisabled)
      ensures message == old(message) && alertText == old(alertText) && progress == old(progress)
      ensures CurrentSession() == if old(CurrentSession()) == Playing then Ready else old(CurrentSession())
      ensures !old(playing) ==> unchanged(this)
    {
      timelineRunning := false;
      playing := false;
    }

    /** The play button's handler: pause when playing, otherwise arm the timeline. */
    method TogglePlay()
      requires Valid() && !playDisabled
      modifies this
      ensures Valid()
      ensures playing == !old(playing) && timelineRunning == playing
      ensures display == old(display) && hasDisplay == old(hasDisplay)
      ensures playDisabled == old(playDisabled) && getDisabled == old(getDisabled)
      ensures message == old(message) && alertText == old(alertText) && progress == old(progress)
      ensures CurrentSession() == if old(CurrentSession()) == Playing then Ready else Playing
    {
      if playing {
        Pause();
      } else {
        playing := true;
        timelineRunning := true;
      }
    }

    /**
     * One timeline tick at the randomly chosen `slot`: the buffer's head goes
     * into that frame and back to the tail of the buffer.
     */
    method Tick(slot: int)
      requires Valid() && timelineRunning && 0 <= slot < FRAMES
      modifies this, frames
      ensures Valid()
      ensures frames[slot] == old(display[0])
      ensures forall i :: 0 <= i < FRAMES && i != slot ==> frames[i] == old(frames[i])
      ensures display == RotateLeft(old(display), 1)
      ensures hasDisplay && playing == old(playing) && timelineRunning
      ensures playDisabled == old(playDisabled) && getDisabled == old(getDisabled)
      ensures message == old(message) && alertText == old(alertText) && progress == old(progress)
    {
      var img := display[0];
      frames[slot] := img;
      display := display[1..] + [img];
      assert display == RotateLeft(old(display), 1);
      RotateLeftPermutes(old(display), 1);
      assert forall u :: u in old(display) ==> u in display by {
        assert forall u :: u in old(display) <==> u in multiset(old(display));
      }
    }

    /**
     * The warm fill: for each frame i in order, pop the buffer's head, show
     * it in frame i, and push it back. Requires the timeline to be stopped,
     * so that no tick can observe the buffer mid-fill.
     */
    method WarmFill()
      requires frames.Length == FRAMES && |display| >= FRAMES && !timelineRunning
      modifies this`display, frames
      ensures display == RotateLeft(old(display), FRAMES)
      ensures forall i :: 0 <= i < FRAMES ==> frames[i] == old(display)[i]
    {
      ghost var built := display;
      for i := 0 to FRAMES
        invariant display == RotateLeft(built, i)
        invariant forall j :: 0 <= j < i ==> frames[j] == built[j]
      {
        var img := display[0];
        display := display[1..];
        frames[i] := img;
        display := display + [img];
        RotateLeftStep(built, i);
      }
    }

    /** What a successful search leaves behind for the distinct URL set `urls`. */
    ghost predicate ShowsLoad(urls: set<string>, uri: string)
      reads this, frames
    {
      hasDisplay && |display| == |urls| && |display| >= FRAMES && frames.Length == FRAMES &&
      NoDuplicates(display) && (forall u :: u in display <==> u in urls) &&
      (forall i :: 0 <= i < FRAMES ==> frames[i] == display[|display| - FRAMES + i]) &&
      NoDuplicates(frames[..]) &&
      progress == Ratio(|urls|, |urls|) && message == uri &&
      !getDisabled && !playDisabled && !playing
    }

    /** What a failed search leaves behind in the flags and texts, with `alert` shown. */
    ghost predicate ShowsFailure(alert: string, wasLoaded: bool)
      reads this
    {
      alertText == alert && message == FAILED_MESSAGE && progress == Ratio(1, 1) &&
      !getDisabled && playDisabled == !wasLoaded && !playing
    }

    /**
     * search(): build the URI, send, check the status, deduplicate, check
     * the threshold, build the buffer and warm-fill the frames; on any
     * failure raise the alert and restore the controls, leaving the buffer
     * and the frames as they were.
     */
    method Search(enc: string -> string, term: string, media: string, response: Response)
      requires Valid() && CurrentSession() == Loading
      modifies this, frames
      ensures Valid()
      ensures var uri := SearchUri(enc, term, media);
        match SearchOutcome(response)
        case Ok(urls) => ShowsLoad(urls, uri) && CurrentSession() == Ready && alertText == old(alertText)
        case Err(e) =>
          ShowsFailure(AlertBody(uri, e), old(hasDisplay)) &&
          display == old(display) && hasDisplay == old(hasDisplay) && frames[..] == old(frames[..]) &&
          CurrentSession() == if old(hasDisplay) then Ready else Idle
    {
      var uri := SearchUri(enc, term, media);
      match response {
        case SendFailed(ex) =>
          Fail(AlertBody(uri, ClientError(ex)));
        case Received(status, text, results) =>
          if status != 200 {
            Fail(AlertBody(uri, NetworkError(text)));
          } else {
            var urls := Deduplicate(results);
            if |urls| <= 20 {
              Fail(AlertBody(uri, InsufficientResults(|urls|)));
            } else {
              Load(uri, urls);
            }
          }
      }
    }

    /** The success path of search(): build the buffer, then warm-fill the frames. */
    method Load(uri: string, urls: set<string>)
      requires frames.Length == FRAMES && |cells| == FRAMES
      requires forall i :: 0 <= i < FRAMES ==> cells[i] == Cell(i)
      requires !playing && !timelineRunning && |urls| >= MIN_RESULTS
      modifies this, frames
      ensures Valid() && ShowsLoad(urls, uri) && CurrentSession() == Ready
      ensures alertText == old(alertText)
    {
      var images, loads := BuildQueue(urls);
      progress := Ratio(loads[|loads| - 1], |urls|);
      getDisabled, playDisabled := false, false;
      message := uri;
      display := images;
      hasDisplay := true;
      WarmFill();
      assert alertText == old(alertText);
      InstalledLoad(images, urls, uri);
    }

    /** The state Load leaves behind is valid and shows the load. */
    lemma InstalledLoad(images: seq<string>, urls: set<string>, uri: string)
      requires |images| == |urls| > FRAMES && NoDuplicates(images)
      requires forall u :: u in images <==> u in urls
      requires frames.Length == FRAMES && |cells| == FRAMES
      requires forall i :: 0 <= i < FRAMES ==> cells[i] == Cell(i)
      requires display == RotateLeft(images, FRAMES) && hasDisplay
      requires forall i :: 0 <= i < FRAMES ==> frames[i] == images[i]
      requires !playing && !timelineRunning && !getDisabled && !playDisabled
      requires progress == Ratio(|urls|, |urls|) && message == uri
      ensures Valid() && ShowsLoad(urls, uri)
    {
      WarmFillShows(images, display, frames[..]);
    }

    /**
     * The error path of search(): show the alert (its text, `AlertBody`, is
     * built by the caller), re-enable `get`, fill the progress bar, and, when
     * an earlier buffer exists, re-enable `play` and pause.
     */
    method Fail(alert: string)
      requires Valid() && CurrentSession() == Loading
      modifies this
      ensures Valid() && ShowsFailure(alert, old(hasDisplay))
      ensures display == old(display) && hasDisplay == old(hasDisplay)
      ensures CurrentSession() == if old(hasDisplay) then Ready else Idle
    {
      alertText := alert;
      message := FAILED_MESSAGE;
      progress := Ratio(1, 1);
      getDisabled := false;
      if hasDisplay {
        playDisabled := false;
        Pause();
      }
    }

    /**
     * The get-images task: pause the rotation, disable both controls, then
     * run the search. Ends in Ready on success; on failure in Ready if an
     * earlier load exists and in Idle otherwise.
     */
    method GetImages(enc: string -> string, term: string, media: string, response: Response)
      requires Valid() && !getDisabled
      modifies this, frames
      ensures Valid() && !playing && !timelineRunning
      ensures var uri := SearchUri(enc, term, media);
        match SearchOutcome(response)
        case Ok(urls) => ShowsLoad(urls, uri) && CurrentSession() == Ready && alertText == old(alertText)
        case Err(e) =>
          ShowsFailure(AlertBody(uri, e), old(hasDisplay)) &&
          display == old(display) && hasDisplay == old(hasDisplay) && frames[..] == old(frames[..]) &&
          CurrentSession() == if old(hasDisplay) then Ready else Idle
    {
      Pause();
      playDisabled := true;
      getDisabled := true;
      message := GETTING_MESSAGE;
      Search(enc, term, media, response);
    }
  }

  /**
   * After the warm fill of a built queue of K > 20 distinct handles, the
   * buffer holds the same K distinct handles, frame i holds element i of the
   * built queue (now at position K - 20 + i of the buffer), and the 20 frames
   * hold distinct handles.
   */
  lemma WarmFillShows(images: seq<string>, buffer: seq<string>, shown: seq<string>)
    requires |images| > FRAMES && NoDuplicates(images)
    requires buffer == RotateLeft(images, FRAMES)
    requires |shown| == FRAMES && forall i :: 0 <= i < FRAMES ==> shown[i] == images[i]
    ensures |buffer| == |images| && NoDuplicates(buffer)
    ensures forall u :: u in buffer <==> u in images
    ensures forall i :: 0 <= i < FRAMES ==> shown[i] == buffer[|buffer| - FRAMES + i]
    ensures forall i :: 0 <= i < FRAMES ==> shown[i] in buffer
    ensures NoDuplicates(shown)
  {
    RotateLeftPermutes(images, FRAMES);
    SameElements(images, buffer);
    forall i | 0 <= i < FRAMES ensures shown[i] == buffer[|buffer| - FRAMES + i] {
      assert buffer[|buffer| - FRAMES + i] == images[i];
    }
  }

  /**
   * Distinct frames do not stay distinct: with 21 handles, after the warm
   * fill a tick on slot 5 and then one on slot 3 leave frames 0 and 3 both
   * showing the first handle, as `Tick` and `WarmFill` state the steps.
   */
  lemma FramesCanRepeat(images: seq<string>)
    requires |images| == FRAMES + 1 && NoDuplicates(images)
    ensures var shown0 := images[..FRAMES];
            var buffer0 := RotateLeft(images, FRAMES);
            var shown1 := shown0[5 := buffer0[0]];
            var buffer1 := RotateLeft(buffer0, 1);
            var shown2 := shown1[3 := buffer1[0]];
            NoDuplicates(shown0) && !NoDuplicates(shown2) && shown2[0] == shown2[3] == images[0]
  {
    var buffer0 := RotateLeft(images, FRAMES);
    assert buffer0[0] == images[FRAMES];
    var buffer1 := RotateLeft(buffer0, 1);
    assert buffer1[0] == buffer0[1] == images[0];
    var shown2 := images[..FRAMES][5 := buffer0[0]][3 := buffer1[0]];
    assert shown2[0] == shown2[3];
  }

  /** Two sequences with the same multiset have the same members. */
  lemma SameElements(a: seq<string>, b: seq<string>)
    requires multiset(a) == multiset(b)
    ensures forall u :: u in a <==> u in b
  {
    forall u ensures u in a <==> u in b {
      assert u in a <==> u in multiset(a);
      assert u in b <==> u in multiset(b);
    }
  }
}
