/** The theme and sidebar state of the page shell (`app/context/ThemeContext.js`):
    three state fields, the persisted theme in local storage and the `data-theme`
    attribute of the document, changed by the mount effect, the resize handler and the
    two toggles. The viewport width and the dark-mode preference are parameters. */
module ThemeContext {
  import opened JsValues

  const Light := "light"
  const Dark := "dark"

  /** The width from which the sidebar is docked rather than an overlay. */
  const DesktopWidth := 1024

  /** The theme toggleTheme switches to. */
  function Toggled(theme: string): (t: string)
    ensures theme == Light <==> t == Dark
    ensures t == Light || t == Dark
  {
    if theme == Light then Dark else Light
  }

  /** Toggling twice restores `light` and `dark`; any other stored value ends as
      `dark` after two toggles. */
  lemma ToggledTwice(theme: string)
    ensures theme == Light || theme == Dark ==> Toggled(Toggled(theme)) == theme
    ensures theme != Light && theme != Dark ==> Toggled(Toggled(theme)) == Dark
  {
  }

  /** The theme chosen on mount: a saved non-empty value, else `dark` when the
      system prefers it, else the current theme. */
  function MountedTheme(saved: Option<string>, prefersDark: bool, current: string): (t: string)
    ensures saved.Some? && saved.value != "" ==> t == saved.value
    ensures (saved.None? || saved.value == "") && prefersDark ==> t == Dark
    ensures (saved.None? || saved.value == "") && !prefersDark ==> t == current
  {
    if saved.Some? && saved.value != "" then saved.value
    else if prefersDark then Dark
    else current
  }

  class ThemeState {
    var theme: string
    var sidebarOpen: bool
    var sidebarCollapsed: bool
    /** `localStorage.getItem('theme')`; None when absent. */
    var storedTheme: Option<string>
    /** The `data-theme` attribute of the document element; None when unset. */
    var documentTheme: Option<string>

    /** The initial state: light theme, sidebar open and not collapsed. */
    constructor (storage: Option<string>)
      ensures theme == Light && sidebarOpen && !sidebarCollapsed
      ensures storedTheme == storage && documentTheme == None
    {
      theme := Light;
      sidebarOpen := true;
      sidebarCollapsed := false;
      storedTheme := storage;
      documentTheme := None;
    }

    /** The mount effect: adopt the saved theme or the dark preference and set the
        document attribute to it, then apply the resize rule once. */
    method Mount(prefersDark: bool, width: int)
      modifies this
      ensures theme == MountedTheme(old(storedTheme), prefersDark, old(theme))
      ensures (old(storedTheme).Some? && old(storedTheme).value != "") || prefersDark ==> documentTheme == Some(theme)
      ensures !((old(storedTheme).Some? && old(storedTheme).value != "") || prefersDark) ==> documentTheme == old(documentTheme)
      ensures sidebarOpen == (width >= DesktopWidth)
      ensures sidebarCollapsed == old(sidebarCollapsed) && storedTheme == old(storedTheme)
    {
      var saved := storedTheme;
      if saved.Some? && saved.value != "" {
        theme := saved.value;
        documentTheme := Some(saved.value);
      } else if prefersDark {
        theme := Dark;
        documentTheme := Some(Dark);
      }
      HandleResize(width);
    }

    /** The resize handler: the sidebar is open exactly on a wide viewport. */
    method HandleResize(width: int)
      modifies this
      ensures sidebarOpen == (width >= DesktopWidth)
      ensures theme == old(theme) && sidebarCollapsed == old(sidebarCollapsed)
      ensures storedTheme == old(storedTheme) && documentTheme == old(documentTheme)
    {
      if width < DesktopWidth {
        sidebarOpen := false;
      } else {
        sidebarOpen := true;
      }
    }

    /** setSidebarOpen, as exposed by the context (the overlay closes the sidebar
        with it). */
    method SetSidebarOpen(open: bool)
      modifies this
      ensures sidebarOpen == open
      ensures theme == old(theme) && sidebarCollapsed == old(sidebarCollapsed)
      ensures storedTheme == old(storedTheme) && documentTheme == old(documentTheme)
    {
      sidebarOpen := open;
    }

    /** toggleTheme: switch, persist and set the document attribute. */
    method ToggleTheme()
      modifies this
      ensures theme == Toggled(old(theme))
      ensures storedTheme == Some(theme) && documentTheme == Some(theme)
      ensures sidebarOpen == old(sidebarOpen) && sidebarCollapsed == old(sidebarCollapsed)
    {
      var newTheme := if theme == Light then Dark else Light;
      theme := newTheme;
      storedTheme := Some(newTheme);
      documentTheme := Some(newTheme);
    }

    /** toggleSidebar: on a narrow viewport flip whether it is open, on a wide one
        flip whether it is collapsed. */
    method ToggleSidebar(width: int)
      modifies this
      ensures width < DesktopWidth ==> sidebarOpen == !old(sidebarOpen) && sidebarCollapsed == old(sidebarCollapsed)
      ensures width >= DesktopWidth ==> sidebarCollapsed == !old(sidebarCollapsed) && sidebarOpen == old(sidebarOpen)
      ensures theme == old(theme) && storedTheme == old(storedTheme) && documentTheme == old(documentTheme)
    {
      if width < DesktopWidth {
        sidebarOpen := !sidebarOpen;
      } else {
        sidebarCollapsed := !sidebarCollapsed;
      }
    }
  }

  /** Two theme toggles from `light` or `dark` restore the theme, and the stored and
      shown theme agree with it. */
  method ToggleThemeTwice(s: ThemeState)
    requires s.theme == Light || s.theme == Dark
    modifies s
    ensures s.theme == old(s.theme)
    ensures s.storedTheme == Some(s.theme) && s.documentTheme == Some(s.theme)
    ensures s.sidebarOpen == old(s.sidebarOpen) && s.sidebarCollapsed == old(s.sidebarCollapsed)
  {
    s.ToggleTheme();
    s.ToggleTheme();
    ToggledTwice(old(s.theme));
  }

  /** Two sidebar toggles at the same width restore the sidebar. */
  method ToggleSidebarTwice(s: ThemeState, width: int)
    modifies s
    ensures s.sidebarOpen == old(s.sidebarOpen) && s.sidebarCollapsed == old(s.sidebarCollapsed)
    ensures s.theme == old(s.theme)
  {
    s.ToggleSidebar(width);
    s.ToggleSidebar(width);
  }
}
