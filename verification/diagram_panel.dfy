/** The diagram panel's own state: the zoom percentage and the theme, with the buttons that
    change them, and the guards of the copy and export buttons. Rendering, the clipboard and
    the PNG exporter are outside; the latter two are oracles given as booleans. */
module DiagramPanel {
  import opened Wrappers

  const MinZoom: int := 50
  const MaxZoom: int := 200
  const ZoomStep: int := 10
  const DefaultZoom: int := 100

  /** `zoom` (a percentage) and `isDarkMode`. */
  datatype Panel = Panel(zoom: int, darkMode: bool)

  /** The state a freshly mounted panel starts in. */
  const Init: Panel := Panel(DefaultZoom, true)

  /** The zooms the buttons can reach: a multiple of the step between the two bounds. */
  predicate Valid(p: Panel) {
    MinZoom <= p.zoom <= MaxZoom && p.zoom % ZoomStep == 0
  }

  function Min(a: int, b: int): int {
    if a < b then a else b
  }

  function Max(a: int, b: int): int {
    if a > b then a else b
  }

  /** `handleZoomIn`: one step up, clamped at the maximum. */
  function ZoomIn(p: Panel): (q: Panel)
    ensures q.darkMode == p.darkMode
    ensures q.zoom <= MaxZoom && q.zoom <= p.zoom + ZoomStep
    ensures q.zoom == p.zoom + ZoomStep || q.zoom == MaxZoom
  {
    p.(zoom := Min(p.zoom + ZoomStep, MaxZoom))
  }

  /** `handleZoomOut`: one step down, clamped at the minimum. */
  function ZoomOut(p: Panel): (q: Panel)
    ensures q.darkMode == p.darkMode
    ensures q.zoom >= MinZoom && q.zoom >= p.zoom - ZoomStep
    ensures q.zoom == p.zoom - ZoomStep || q.zoom == MinZoom
  {
    p.(zoom := Max(p.zoom - ZoomStep, MinZoom))
  }

  /** `handleCenter`: back to the default zoom, whatever the zoom was. */
  function Center(p: Panel): (q: Panel)
    ensures q.darkMode == p.darkMode
    ensures q == Init.(darkMode := p.darkMode)
  {
    p.(zoom := DefaultZoom)
  }

  /** The theme button: light becomes dark and dark becomes light. */
  function ToggleTheme(p: Panel): (q: Panel)
    ensures q.zoom == p.zoom
    ensures q.darkMode != p.darkMode
  {
    p.(darkMode := !p.darkMode)
  }

  /** The zoom-out button is disabled at or below the minimum. */
  predicate ZoomOutDisabled(p: Panel) {
    p.zoom <= MinZoom
  }

  /** The zoom-in button is disabled at or above the maximum. */
  predicate ZoomInDisabled(p: Panel) {
    p.zoom >= MaxZoom
  }

  /** The panel starts in a valid state. */
  lemma InitValid()
    ensures Valid(Init) && Init.zoom == DefaultZoom && Init.darkMode
  {
  }

  /** Every button keeps the state valid. */
  lemma ButtonsPreserveValid(p: Panel)
    requires Valid(p)
    ensures Valid(ZoomIn(p)) && Valid(ZoomOut(p)) && Valid(Center(p)) && Valid(ToggleTheme(p))
  {
  }

  /** In a valid state a zoom button changes the zoom exactly when it is enabled, and then
      by exactly one step. */
  lemma ZoomButtonsAct(p: Panel)
    requires Valid(p)
    ensures ZoomIn(p) == p <==> ZoomInDisabled(p)
    ensures ZoomOut(p) == p <==> ZoomOutDisabled(p)
    ensures !ZoomInDisabled(p) ==> ZoomIn(p).zoom == p.zoom + ZoomStep
    ensures !ZoomOutDisabled(p) ==> ZoomOut(p).zoom == p.zoom - ZoomStep
  {
  }

  /** Toggling twice restores the theme. */
  lemma ToggleInvolution(p: Panel)
    ensures ToggleTheme(ToggleTheme(p)) == p
  {
  }

  /** Zoom and theme are independent: the theme button commutes with every zoom button. */
  lemma ThemeIndependentOfZoom(p: Panel)
    ensures ToggleTheme(ZoomIn(p)) == ZoomIn(ToggleTheme(p))
    ensures ToggleTheme(ZoomOut(p)) == ZoomOut(ToggleTheme(p))
    ensures ToggleTheme(Center(p)) == Center(ToggleTheme(p))
  {
  }

  /** The buttons of the panel's footer that change its state. */
  datatype Button = ZoomInButton | ZoomOutButton | CenterButton | ThemeButton

  /** A click. A disabled button does nothing, but the zoom functions are no-ops there. */
  function Click(p: Panel, b: Button): Panel {
    match b
    case ZoomInButton => ZoomIn(p)
    case ZoomOutButton => ZoomOut(p)
    case CenterButton => Center(p)
    case ThemeButton => ToggleTheme(p)
  }

  /** The state after a sequence of clicks, earliest first. */
  function Run(p: Panel, clicks: seq<Button>): Panel
    decreases |clicks|
  {
    if clicks == [] then p else Run(Click(p, clicks[0]), clicks[1..])
  }

  /** Whatever the user clicks, the state stays valid. */
  lemma {:induction false} RunPreservesValid(p: Panel, clicks: seq<Button>)
    requires Valid(p)
    ensures Valid(Run(p, clicks))
    decreases |clicks|
  {
    if clicks != [] {
      ButtonsPreserveValid(p);
      RunPreservesValid(Click(p, clicks[0]), clicks[1..]);
    }
  }

  /** Clicks run one after the other. */
  lemma {:induction false} RunAppend(p: Panel, first: seq<Button>, second: seq<Button>)
    ensures Run(p, first + second) == Run(Run(p, first), second)
    decreases |first|
  {
    if first == [] {
      assert first + second == second;
    } else {
      assert (first + second)[1..] == first[1..] + second;
      RunAppend(Click(p, first[0]), first[1..], second);
    }
  }

  /** `n` clicks on one button. */
  function Repeat(b: Button, n: nat): seq<Button>
    ensures |Repeat(b, n)| == n
  {
    if n == 0 then [] else [b] + Repeat(b, n - 1)
  }

  /** Zooming in `n` times from a valid zoom that leaves room for it adds `n` steps. */
  lemma {:induction false} ZoomInRepeated(p: Panel, n: nat)
    requires Valid(p) && p.zoom + n * ZoomStep <= MaxZoom
    ensures Run(p, Repeat(ZoomInButton, n)) == p.(zoom := p.zoom + n * ZoomStep)
    decreases n
  {
    if n > 0 {
      var q := ZoomIn(p);
      assert q == p.(zoom := p.zoom + ZoomStep);
      assert Repeat(ZoomInButton, n)[1..] == Repeat(ZoomInButton, n - 1);
      ZoomInRepeated(q, n - 1);
    }
  }

  /** The clicks that lead from the initial state to `p`: to the minimum zoom, up to `p`'s
      zoom, and the theme button when `p` is light. */
  function Route(p: Panel): seq<Button>
    requires Valid(p)
  {
    Repeat(ZoomOutButton, 5) + Repeat(ZoomInButton, (p.zoom - MinZoom) / ZoomStep)
    + (if p.darkMode then [] else [ThemeButton])
  }

  /** Every valid state can be reached from the initial one, so the invariant is exact. */
  lemma RouteReaches(p: Panel)
    requires Valid(p)
    ensures Run(Init, Route(p)) == p
  {
    var down := Repeat(ZoomOutButton, 5);
    var n := (p.zoom - MinZoom) / ZoomStep;
    var up := Repeat(ZoomInButton, n);
    var theme: seq<Button> := if p.darkMode then [] else [ThemeButton];
    var bottom := Panel(MinZoom, true);
    assert Run(Init, down) == bottom;
    ZoomInRepeated(bottom, n);
    var top := Run(bottom, up);
    assert top == Panel(p.zoom, true);
    RunAppend(Init, down, up);
    RunAppend(Init, down + up, theme);
    assert Run(top, theme) == p;
  }

  /** A notification shown to the user. */
  datatype Toast = Info(text: string) | Alert(text: string)

  const NoCodeToCopy: string := "No diagram to copy"
  const Copied: string := "Mermaid code copied to clipboard!"
  const CopyFailed: string := "Failed to copy"
  const NoCodeToExport: string := "No diagram to export"
  const Exported: string := "Diagram exported as PNG!"
  const ExportFailed: string := "Failed to export diagram"

  /** The `mermaidCode` prop is truthy: present and not empty. */
  predicate HasCode(code: Option<string>) {
    code.Some? && code.value != ""
  }

  /** What `handleCopy` did: the text handed to the clipboard, if any, and the toast. */
  datatype CopyOutcome = CopyOutcome(clipboard: Option<string>, toast: Toast)

  /** `handleCopy`; `clipboardAccepts` says whether the clipboard write resolves. */
  function HandleCopy(code: Option<string>, clipboardAccepts: bool): (r: CopyOutcome)
    ensures !HasCode(code) <==> r.clipboard.None?
    ensures !HasCode(code) ==> r.toast == Alert(NoCodeToCopy)
    ensures HasCode(code) ==> r.clipboard == code
    ensures HasCode(code) ==> (r.toast == Info(Copied) <==> clipboardAccepts)
    ensures HasCode(code) && !clipboardAccepts ==> r.toast == Alert(CopyFailed)
  {
    if !HasCode(code) then CopyOutcome(None, Alert(NoCodeToCopy))
    else if clipboardAccepts then CopyOutcome(code, Info(Copied))
    else CopyOutcome(code, Alert(CopyFailed))
  }

  /** What `handleExport` did: the theme the exporter was asked for, if it was called, and
      the toast. */
  datatype ExportOutcome = ExportOutcome(exporter: Option<bool>, toast: Toast)

  /** `handleExport` in state `p`; `exporterSucceeds` is what the PNG exporter reports. */
  function HandleExport(p: Panel, code: Option<string>, exporterSucceeds: bool): (r: ExportOutcome)
    ensures !HasCode(code) <==> r.exporter.None?
    ensures !HasCode(code) ==> r.toast == Alert(NoCodeToExport)
    ensures HasCode(code) ==> r.exporter == Some(p.darkMode)
    ensures HasCode(code) ==> (r.toast == Info(Exported) <==> exporterSucceeds)
    ensures HasCode(code) && !exporterSucceeds ==> r.toast == Alert(ExportFailed)
  {
    if !HasCode(code) then ExportOutcome(None, Alert(NoCodeToExport))
    else ExportOutcome(Some(p.darkMode), if exporterSucceeds then Info(Exported) else Alert(ExportFailed))
  }

  /** Without code, copy and export report the missing diagram whatever the oracles would
      have answered: neither the clipboard nor the exporter is consulted. */
  lemma NoCodeTouchesNothing(p: Panel, code: Option<string>, a: bool, b: bool)
    requires !HasCode(code)
    ensures HandleCopy(code, a) == HandleCopy(code, !a) == CopyOutcome(None, Alert(NoCodeToCopy))
    ensures HandleExport(p, code, b) == HandleExport(p, code, !b) == ExportOutcome(None, Alert(NoCodeToExport))
  {
  }
}
