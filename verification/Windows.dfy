// Clients as the layouts see them, and the view of a monitor that decides their visibility.

module Windows {
  import opened Boxes
  import opened ClientIds
  import opened DwindleNodes
  import opened TagWords

  datatype Window = Window(id: Client, mon: nat, tags: Word, floating: bool, fullscreen: bool,
                           scratchpad: bool)

  datatype Screen = Screen(id: nat, tagset: seq<Word>, selected: nat, scratchpadVisible: bool,
                           gaps: bool, area: Box)

  predicate ValidScreen(m: Screen) {
    |m.tagset| == 2 && m.selected < 2
  }

  /** `visibleon`. */
  predicate VisibleOn(w: Window, m: Screen)
    requires ValidScreen(m)
  {
    w.mon == m.id && (if w.scratchpad then m.scratchpadVisible else And(w.tags, m.tagset[m.selected]) != {})
  }

  /** A window that keeps its place in the tree. */
  predicate Stays(w: Window, m: Screen)
    requires ValidScreen(m)
  {
    VisibleOn(w, m) && !w.floating
  }

  /** A window that is given a place in the tree. */
  predicate Tiles(w: Window, m: Screen)
    requires ValidScreen(m)
  {
    VisibleOn(w, m) && !w.floating && !w.fullscreen
  }

  /** The client list: every client once, none null. */
  ghost predicate ValidList(ws: seq<Window>) {
    && (forall i | 0 <= i < |ws| :: ws[i].id != NULL)
    && (forall i, j | 0 <= i < |ws| && 0 <= j < |ws| && ws[i].id == ws[j].id :: i == j)
  }

  predicate StaysListed(ws: seq<Window>, m: Screen, c: Client)
    requires ValidScreen(m)
  {
    exists i | 0 <= i < |ws| :: ws[i].id == c && Stays(ws[i], m)
  }

  ghost predicate TilesListed(ws: seq<Window>, m: Screen, c: Client)
    requires ValidScreen(m)
  {
    exists i :: 0 <= i < |ws| && ws[i].id == c && Tiles(ws[i], m)
  }

  function CountTiles(ws: seq<Window>, m: Screen): nat
    requires ValidScreen(m)
  {
    if ws == [] then 0 else CountTiles(ws[..|ws| - 1], m) + (if Tiles(ws[|ws| - 1], m) then 1 else 0)
  }

  /** The gap in force: none when gaps are off, or when smart gaps meet a lone window. */
  function GapOf(m: Screen, gaps: nat, smart: bool, tiles: nat): nat {
    if m.gaps && !(smart && tiles == 1) then gaps else 0
  }

  function Fullscreen(ws: seq<Window>): set<Client> {
    set i | 0 <= i < |ws| && ws[i].fullscreen :: ws[i].id
  }
}
