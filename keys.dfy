/** Input handling: the `match` on polled events in `main` and the key table
    of `input`. */
module Keys {
  import opened Term

  /** crossterm's key codes. The payloads of `Media` and `Modifier` are not kept. */
  datatype KeyCode =
    | Char(c: char) | F(n: U8)
    | Backspace | Enter | Left | Right | Up | Down | Home | End | PageUp | PageDown
    | Tab | BackTab | Delete | Insert | Null | Esc
    | CapsLock | ScrollLock | NumLock | PrintScreen | Pause | Menu | KeypadBegin
    | Media | Modifier

  datatype KeyModifier = Shift | Control | Alt | Super | Hyper | Meta

  datatype KeyEventKind = Press | Repeat | Release

  datatype KeyEvent = KeyEvent(code: KeyCode, modifiers: set<KeyModifier>, kind: KeyEventKind)

  /** The events `event::read` delivers. Mouse events carry no data here. */
  datatype Event =
    | Key(key: KeyEvent) | FocusGained | FocusLost | Mouse | Paste(text: string)
    | Resize(columns: U16, rows: U16)

  /** What handling an event leads to: `quit` (restore the terminal and exit)
      or returning `Ok` with nothing changed. */
  datatype Action = Quit | Continue

  /** `input`: only the code `Char('q')` quits, whatever the modifiers and the
      kind of the event; every other key does nothing. */
  function Input(key: KeyEvent): (a: Action)
    ensures a == Quit <==> key.code == Char('q')
  {
    if key.code == Char('q') then Quit else Continue
  }

  /** The `match event::read()` of `main`: key events go to `input`, the rest
      are ignored (a resize needs nothing, since every redraw asks for the size). */
  function Dispatch(ev: Event): (a: Action)
    ensures a == Quit <==> ev.Key? && ev.key.code == Char('q')
  {
    match ev
    case Key(k) => Input(k)
    case _ => Continue
  }

  /** What `event::poll` with its one-second timeout returned. */
  datatype Polled = Timeout | Arrived(event: Event)

  /** What one turn of the event loop does. */
  datatype Reaction = Idle | Exit | Redraw

  /** One turn of `main`'s loop: on a timeout nothing happens, not even a
      redraw; an arriving event is dispatched and, unless it quits, followed by
      a redraw. */
  function Tick(p: Polled): (r: Reaction)
    ensures r == Idle <==> p.Timeout?
    ensures r == Exit <==> p.Arrived? && p.event.Key? && p.event.key.code == Char('q')
    ensures r == Redraw <==> p.Arrived? && !(p.event.Key? && p.event.key.code == Char('q'))
  {
    match p
    case Timeout => Idle
    case Arrived(ev) => if Dispatch(ev) == Quit then Exit else Redraw
  }
}
