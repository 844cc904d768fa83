/**
 * The main process's window handling: restoring the saved window position
 * only when it still lies on a connected display, closing to the tray, and
 * the quit sequence that finally lets the window close and kills every
 * terminal process.
 */
module Window {
  import opened Wrappers
  import Pty

  /** A display's bounds in screen coordinates. */
  datatype Bounds = Bounds(x: int, y: int, width: int, height: int)

  /** The window geometry kept in the configuration; `x`/`y` are absent until first saved. */
  datatype SavedWindow = SavedWindow(width: int, height: int, x: Option<int>, y: Option<int>, isMaximized: bool)

  /** The options the window is created with. */
  datatype Placement = Placement(width: int, height: int, x: Option<int>, y: Option<int>, minWidth: int, minHeight: int)

  const MinWidth := 600
  const MinHeight := 400

  /** The point lies in the display: left and top edges included, right and bottom excluded. */
  predicate OnDisplay(b: Bounds, x: int, y: int)
  {
    x >= b.x && x < b.x + b.width && y >= b.y && y < b.y + b.height
  }

  /** `displays.some(...)`, scanned from the first display. */
  function AnyDisplayHolds(displays: seq<Bounds>, x: int, y: int): (r: bool)
    ensures r <==> exists i :: 0 <= i < |displays| && OnDisplay(displays[i], x, y)
  {
    if |displays| == 0 then false
    else if OnDisplay(displays[0], x, y) then true
    else
      var rest := AnyDisplayHolds(displays[1..], x, y);
      assert rest ==> exists i :: 1 <= i < |displays| && OnDisplay(displays[i], x, y) by {
        if rest {
          var j :| 0 <= j < |displays[1..]| && OnDisplay(displays[1..][j], x, y);
          assert OnDisplay(displays[j + 1], x, y);
        }
      }
      rest
  }

  /**
   * The saved position is usable: both coordinates were saved and the
   * top-left corner lies on some connected display.
   */
  function ValidPosition(w: SavedWindow, displays: seq<Bounds>): (r: bool)
    ensures r <==> (w.x.Some? && w.y.Some? &&
      exists i :: 0 <= i < |displays| && OnDisplay(displays[i], w.x.value, w.y.value))
  {
    w.x.Some? && w.y.Some? && AnyDisplayHolds(displays, w.x.value, w.y.value)
  }

  /**
   * `createWindow`'s geometry: the saved size always, the saved position
   * only when it is valid (otherwise neither coordinate, and the window
   * system centres the window), and the fixed minimum size.
   */
  function CreatePlacement(w: SavedWindow, displays: seq<Bounds>): (r: Placement)
    ensures r.width == w.width && r.height == w.height
    ensures r.minWidth == 600 && r.minHeight == 400
    ensures r.x.Some? <==> r.y.Some?
    ensures r.x.Some? ==> r.x == w.x && r.y == w.y
    ensures r.x.Some? ==> exists i :: 0 <= i < |displays| && OnDisplay(displays[i], r.x.value, r.y.value)
    ensures ValidPosition(w, displays) ==> r.x.Some?
  {
    var valid := ValidPosition(w, displays);
    Placement(w.width, w.height,
      if valid then w.x else None,
      if valid then w.y else None,
      MinWidth, MinHeight)
  }

  /** A window whose position lies outside every display is never placed there. */
  lemma OffScreenIsDropped(w: SavedWindow, displays: seq<Bounds>)
    requires w.x.Some? && w.y.Some?
    requires forall i :: 0 <= i < |displays| ==> !OnDisplay(displays[i], w.x.value, w.y.value)
    ensures CreatePlacement(w, displays).x == None && CreatePlacement(w, displays).y == None
  {
  }

  /** With no display connected, or without a saved coordinate, no position is passed. */
  lemma NoDisplayNoPosition(w: SavedWindow, displays: seq<Bounds>)
    requires |displays| == 0 || w.x.None? || w.y.None?
    ensures CreatePlacement(w, displays).x == None
  {
  }

  /** The geometry of a fresh configuration: 1200 by 800, no position saved yet. */
  function DefaultWindow(): SavedWindow
  {
    SavedWindow(1200, 800, None, None, false)
  }

  /** A fresh configuration opens at the default size and lets the window system place it. */
  lemma FirstLaunchPlacement(displays: seq<Bounds>)
    ensures CreatePlacement(DefaultWindow(), displays) == Placement(1200, 800, None, None, 600, 400)
  {
  }

  // ---------------------------------------------------------------------------
  // Close to tray and quit
  // ---------------------------------------------------------------------------

  /** The main process's state: the quit flag, the window, the tray and the registered shortcuts. */
  datatype App = App(
    isQuitting: bool,
    windowOpen: bool,
    windowVisible: bool,
    trayPresent: bool,
    shortcutsRegistered: bool,
    ptys: Pty.Manager)

  /** The window's close request: hidden to the tray unless the app is quitting, then it closes. */
  function OnClose(a: App): (r: App)
    ensures r.ptys == a.ptys && r.isQuitting == a.isQuitting && r.trayPresent == a.trayPresent
    ensures !a.isQuitting ==> r.windowOpen == a.windowOpen && !r.windowVisible
    ensures a.isQuitting ==> !r.windowOpen
  {
    if !a.isQuitting then a.(windowVisible := false)
    else a.(windowOpen := false, windowVisible := false)
  }

  /**
   * `before-quit`: raise the quit flag, kill every live terminal process,
   * unregister the global shortcuts and remove the tray icon.
   */
  method BeforeQuit(a: App) returns (r: App)
    ensures r.isQuitting && !r.trayPresent && !r.shortcutsRegistered
    ensures r.windowOpen == a.windowOpen && r.windowVisible == a.windowVisible
    ensures forall id :: id in r.ptys.registry <==> id in a.ptys.registry && !a.ptys.registry[id].alive
    ensures forall id | id in r.ptys.registry :: r.ptys.registry[id] == a.ptys.registry[id]
    ensures r.ptys.procs.Keys == a.ptys.procs.Keys
  {
    var killed := Pty.KillAll(a.ptys);
    r := a.(isQuitting := true, ptys := killed, shortcutsRegistered := false, trayPresent := false);
  }

  /** Closing the window never ends the app by itself: it stays open, hidden, with its terminals. */
  lemma CloseHidesToTray(a: App)
    requires !a.isQuitting
    ensures OnClose(a).windowOpen == a.windowOpen && OnClose(a).ptys == a.ptys
    ensures OnClose(OnClose(a)) == OnClose(a)
  {
  }

  /** Once the quit sequence has run, the close request goes through and no live process stays registered. */
  method QuitThenClose(a: App) returns (r: App)
    ensures !r.windowOpen && r.isQuitting
    ensures forall id | id in r.ptys.registry :: !r.ptys.registry[id].alive
  {
    var quitting := BeforeQuit(a);
    r := OnClose(quitting);
  }
}
