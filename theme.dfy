/** The colour-scheme store of stores/theme.ts: dark mode on, or follow the system. */
module Theme {

  datatype ThemeMode = System | Dark

  /** The mode as the store spells it. */
  function ModeName(m: ThemeMode): (r: string)
    ensures r == "system" || r == "dark"
    ensures (r == "dark") <==> m == Dark
  {
    match m
    case System => "system"
    case Dark => "dark"
  }

  /** The mode `toggleDarkMode` switches to: the other one. */
  function Toggled(m: ThemeMode): (r: ThemeMode)
    ensures r != m
  {
    if m == Dark then System else Dark
  }

  /** Toggling twice restores the mode. */
  lemma ToggleTwiceRestores(m: ThemeMode)
    ensures Toggled(Toggled(m)) == m
  {
  }

  class ThemeStore {
    var mode: ThemeMode

    /** The store starts out following the system. */
    constructor()
      ensures mode == System
    {
      mode := System;
    }

    /** `enableDarkMode`; enabling again changes nothing. */
    method EnableDarkMode()
      modifies this
      ensures mode == Dark
    {
      mode := Dark;
    }

    /** `disableDarkMode`: back to following the system. */
    method DisableDarkMode()
      modifies this
      ensures mode == System
    {
      mode := System;
    }

    /** `toggleDarkMode`. */
    method ToggleDarkMode()
      modifies this
      ensures mode == Toggled(old(mode))
    {
      mode := if mode == Dark then System else Dark;
    }
  }
}
