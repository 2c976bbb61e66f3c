/** The user-interface state of src/cazary.js: the page-wide panel (at most
    one, whichever widget opened it) with the `cazary-active` and
    `cazary-disabled` classes of the toolbar items, and each widget's switch
    between the rich-text editor and the HTML source view. */
module Controller {
  import opened Wrappers
  import opened Commands
  import opened Markup
  import opened CommandStatus

  /** A toolbar item: the `li.cazary-command-<name>` of one widget. */
  datatype Item = Item(owner: int, command: Command)

  /** The open panel, by its `id` and `command` data items. */
  datatype Panel = Panel(owner: int, command: Command)

  /** The items of every widget that carry the class of command `c`. */
  function OfCommand(items: set<Item>, c: Command): (r: set<Item>)
    ensures forall i | i in r :: i in items
  {
    set i | i in items && i.command == c
  }

  /** The active items once the open panel, if any, is removed:
      `destroyAllPanels` clears the class from every item, on every widget,
      named after the panel's command. */
  function Closed(panel: Option<Panel>, active: set<Item>): set<Item> {
    if panel.Some? then active - OfCommand(active, panel.value.command) else active
  }

  /** The panel and the active items after a click on item `(owner, c)`:
      any open panel is removed first; a click on the item whose panel was
      open ends there, and otherwise a panel command opens its panel and
      marks the item active. */
  function Opened(panel: Option<Panel>, active: set<Item>, owner: int, c: Command): (Option<Panel>, set<Item>) {
    var rest := Closed(panel, active);
    if panel == Some(Panel(owner, c)) || c !in PanelCommands then (None, rest)
    else (Some(Panel(owner, c)), rest + {Item(owner, c)})
  }

  /** Closing leaves no item of the panel's command active and touches no
      other item. */
  lemma ClosedItems(panel: Option<Panel>, active: set<Item>, i: Item)
    ensures i in Closed(panel, active) <==>
              i in active && (panel.None? || i.command != panel.value.command)
  {
  }

  /** Clicking the item whose panel is open closes it; clicking any other
      panel command leaves exactly its panel open with its item active; no
      item is affected unless it belongs to the old or the new panel's
      command. */
  lemma OpenedPanel(panel: Option<Panel>, active: set<Item>, owner: int, c: Command)
    ensures var (p, a) := Opened(panel, active, owner, c);
            (p.None? <==> panel == Some(Panel(owner, c)) || c !in PanelCommands) &&
            (p.Some? ==> p.value == Panel(owner, c) && Item(owner, c) in a) &&
            (forall i: Item | i.command != c && (panel.None? || i.command != panel.value.command) ::
               i in a <==> i in active)
  {
    var (p, a) := Opened(panel, active, owner, c);
    forall i: Item | i.command != c && (panel.None? || i.command != panel.value.command)
      ensures i in a <==> i in active
    {
      ClosedItems(panel, active, i);
    }
  }

  /** Clicking the same panel command twice returns to no panel, with no
      item of that command active anywhere. */
  lemma OpenedTwice(panel: Option<Panel>, active: set<Item>, owner: int, c: Command)
    requires c in PanelCommands
    requires panel != Some(Panel(owner, c))
    ensures var (p1, a1) := Opened(panel, active, owner, c);
            var (p2, a2) := Opened(p1, a1, owner, c);
            p2 == None && OfCommand(a2, c) == {}
  {
  }

  /** The snapshot reports no status for the source switch, so a refresh
      never touches the source item's classes. */
  lemma SnapshotSkipsSource()
    ensures Source !in Toggles + Guarded
  {
  }

  /** A command with a panel is neither the source switch nor a command that
      runs at once, and the source switch and the separator are neither. */
  lemma PanelCommandsApart(c: Command)
    ensures c in PanelCommands ==> c != Source && c !in GenericCommands
    ensures c == Source || c == Separator ==> c !in PanelCommands && c !in GenericCommands
  {
  }

  /** The document: the panel and the classes of the toolbar items. */
  class Page {
    var panel: Option<Panel>
    var active: set<Item>
    var disabled: set<Item>

    /** Only panel commands have panels. */
    predicate Valid()
      reads this
    {
      panel.Some? ==> panel.value.command in PanelCommands
    }

    constructor ()
      ensures Valid()
      ensures panel == None && active == {} && disabled == {}
    {
      panel := None;
      active := {};
      disabled := {};
    }

    /** `destroyAllPanels` */
    method DestroyAllPanels()
      modifies this
      ensures Valid()
      ensures panel == None
      ensures active == Closed(old(panel), old(active))
      ensures disabled == old(disabled)
    {
      if panel.Some? {
        var c := panel.value.command;
        active := active - OfCommand(active, c);
      }
      panel := None;
    }

    /** `createPanel`, for the item `(owner, c)` that was clicked. */
    method OpenPanel(owner: int, c: Command)
      requires Valid()
      modifies this
      ensures Valid()
      ensures (panel, active) == Opened(old(panel), old(active), owner, c)
      ensures disabled == old(disabled)
    {
      if panel.Some? {
        var open := panel.value;
        DestroyAllPanels();
        if open == Panel(owner, c) {
          return;
        }
      }
      if c !in PanelCommands {
        return;
      }
      active := active + {Item(owner, c)};
      panel := Some(Panel(owner, c));
    }
  }

  /** The editor body and the textarea value after a switch of view: entering
      the HTML view copies the body, normalised, into the textarea; leaving
      it loads the textarea into the body. */
  function Switched(toHtml: bool, body: string, origin: string): (string, string) {
    if toHtml then (body, Normalize(body)) else (origin, origin)
  }

  /** Switching to the HTML view and back leaves the normalised body in both
      places, so the body comes back unchanged exactly when it was already
      normal; further round trips change nothing more. */
  lemma RoundTrip(body: string, origin: string)
    ensures var (b1, o1) := Switched(true, body, origin);
            var (b2, o2) := Switched(false, b1, o1);
            b2 == Normalize(body) && o2 == Normalize(body) &&
            (b2 == body <==> Normalize(body) == body) &&
            Switched(false, Switched(true, b2, o2).0, Switched(true, b2, o2).1) == (b2, o2)
  {
    NormalizeIdempotent(body);
  }

  /** One editor instance. Its items are those of the commands in its
      toolbar; whether it shows the HTML view is read off the class of its
      source item, as `_isHtmlMode` does. */
  class Widget {
    const id: int
    const page: Page
    const toolbar: set<Command>
    var body: string
    var origin: string

    /** The items of this widget other than its source item. */
    function Others(): (r: set<Item>)
      ensures forall i | i in r :: i.owner == id && i.command in toolbar && i.command != Source
    {
      set c | c in toolbar && c != Source :: Item(id, c)
    }

    predicate IsHtmlMode()
      reads page
    {
      Item(id, Source) in page.active
    }

    /** A widget over a textarea holding `value`; the caller then selects the
        initial view. */
    constructor (id: int, page: Page, toolbar: set<Command>, value: string)
      ensures this.id == id && this.page == page && this.toolbar == toolbar
      ensures body == value && origin == value
    {
      this.id := id;
      this.page := page;
      this.toolbar := toolbar;
      body := value;
      origin := value;
    }

    /** The items with class `s` once the statuses of the commands in `done`
        have been applied to this widget's items: an item whose command has
        status `s` gets the class, any other item of those commands loses it. */
    function Classed(items: set<Item>, status: map<Command, Status>, s: Status, done: set<Command>): set<Item> {
      (set i | i in items && !(i.owner == id && i.command in done && i.command in status))
      + (set c | c in done && c in status && c in toolbar && status[c] == s :: Item(id, c))
    }

    /** After a refresh an item of this widget for a command of the snapshot
        has the class exactly when the command has that status, and every
        other item keeps its classes. */
    lemma ClassedItems(items: set<Item>, status: map<Command, Status>, s: Status, i: Item)
      ensures i.owner == id && i.command in status && i.command in toolbar ==>
                (i in Classed(items, status, s, status.Keys) <==> status[i.command] == s)
      ensures !(i.owner == id && i.command in status) ==>
                (i in Classed(items, status, s, status.Keys) <==> i in items)
    {
    }

    lemma ClassedStep(items: set<Item>, status: map<Command, Status>, s: Status, done: set<Command>, c: Command)
      requires c in status && c !in done
      ensures Classed(items, status, s, done + {c}) ==
                if status[c] == s && c in toolbar then Classed(items, status, s, done) + {Item(id, c)}
                else Classed(items, status, s, done) - {Item(id, c)}
    {
    }

    /** One step of the refresh: the item for `name` carries the active and
        disabled classes exactly as `value` says, if the toolbar has it. */
    method SetClasses(name: Command, value: Status)
      modifies page
      ensures page.active == if value == Active && name in toolbar then old(page.active) + {Item(id, name)}
                             else old(page.active) - {Item(id, name)}
      ensures page.disabled == if value == Disabled && name in toolbar then old(page.disabled) + {Item(id, name)}
                               else old(page.disabled) - {Item(id, name)}
      ensures page.panel == old(page.panel)
    {
      if value == Active && name in toolbar {
        page.active := page.active + {Item(id, name)};
      } else {
        page.active := page.active - {Item(id, name)};
      }
      if value == Disabled && name in toolbar {
        page.disabled := page.disabled + {Item(id, name)};
      } else {
        page.disabled := page.disabled - {Item(id, name)};
      }
    }

    /** `_updateCommandStatus`: the snapshot's statuses become the classes of
        this widget's items. */
    method Refresh(status: map<Command, Status>)
      requires status.Keys <= Toggles + Guarded
      modifies page
      ensures page.active == Classed(old(page.active), status, Active, status.Keys)
      ensures page.disabled == Classed(old(page.disabled), status, Disabled, status.Keys)
      ensures page.panel == old(page.panel)
    {
      var todo := status.Keys;
      while todo != {}
        invariant todo <= status.Keys
        invariant page.active == Classed(old(page.active), status, Active, status.Keys - todo)
        invariant page.disabled == Classed(old(page.disabled), status, Disabled, status.Keys - todo)
        invariant page.panel == old(page.panel)
        decreases todo
      {
        var name :| name in todo;
        var value := status[name];
        ClassedStep(old(page.active), status, Active, status.Keys - todo, name);
        ClassedStep(old(page.disabled), status, Disabled, status.Keys - todo, name);
        SetClasses(name, value);
        assert status.Keys - (todo - {name}) == (status.Keys - todo) + {name};
        todo := todo - {name};
      }
    }

    /** `_setHtmlMode`: the textarea receives the normalised body, every item
        but the source item is disabled, and the source item is marked
        active (when the toolbar has one: otherwise the widget keeps reading
        as being in the editor view). */
    method SetHtmlMode()
      modifies this, page
      ensures (body, origin) == Switched(true, old(body), old(origin))
      ensures page.disabled == old(page.disabled) + Others()
      ensures page.active == old(page.active) + (if Source in toolbar then {Item(id, Source)} else {})
      ensures page.panel == old(page.panel)
      ensures IsHtmlMode() <==> Source in toolbar || old(IsHtmlMode())
      ensures forall i | i in Others() :: i in page.disabled
    {
      origin := Normalize(body);
      page.disabled := page.disabled + Others();
      if Source in toolbar {
        page.active := page.active + {Item(id, Source)};
      }
    }

    /** `_setRteMode`, followed by its refresh with the snapshot taken in the
        editor: the body receives the textarea value, the items are enabled,
        the source item loses its mark and the snapshot is applied. */
    method SetRteMode(status: map<Command, Status>)
      requires status.Keys <= Toggles + Guarded
      modifies this, page
      ensures (body, origin) == Switched(false, old(body), old(origin))
      ensures page.active == Classed(old(page.active) - {Item(id, Source)}, status, Active, status.Keys)
      ensures page.disabled == Classed(old(page.disabled) - Others(), status, Disabled, status.Keys)
      ensures page.panel == old(page.panel)
      ensures !IsHtmlMode()
    {
      body := origin;
      page.disabled := page.disabled - Others();
      page.active := page.active - {Item(id, Source)};
      SnapshotSkipsSource();
      Refresh(status);
      ClassedItems(old(page.active) - {Item(id, Source)}, status, Active, Item(id, Source));
    }

    /** `_toggleMode`: the view opposite to the current one. */
    method ToggleMode(status: map<Command, Status>)
      requires status.Keys <= Toggles + Guarded
      modifies this, page
      ensures old(IsHtmlMode()) ==> (body, origin) == Switched(false, old(body), old(origin)) && !IsHtmlMode()
      ensures !old(IsHtmlMode()) ==> (body, origin) == Switched(true, old(body), old(origin)) &&
                                     (IsHtmlMode() <==> Source in toolbar)
      ensures old(IsHtmlMode()) ==>
                page.active == Classed(old(page.active) - {Item(id, Source)}, status, Active, status.Keys) &&
                page.disabled == Classed(old(page.disabled) - Others(), status, Disabled, status.Keys)
      ensures !old(IsHtmlMode()) ==>
                page.active == old(page.active) + (if Source in toolbar then {Item(id, Source)} else {}) &&
                page.disabled == old(page.disabled) + Others()
      ensures page.panel == old(page.panel)
    {
      if IsHtmlMode() {
        SetRteMode(status);
      } else {
        SetHtmlMode();
      }
    }

    /** The widget's `_execCommand`: any panel is removed, the editor runs the
        command (the native name is returned; `backcolor` may become
        `hilitecolor`) and the snapshot taken afterwards is applied. */
    method ExecCommand(c: Command, hiliteExecutable: bool, status: map<Command, Status>)
      returns (issued: string)
      requires page.Valid()
      requires status.Keys <= Toggles + Guarded
      modifies page
      ensures issued == NativeName(c, hiliteExecutable)
      ensures page.panel == None
      ensures page.active == Classed(Closed(old(page.panel), old(page.active)), status, Active, status.Keys)
      ensures page.disabled == Classed(old(page.disabled), status, Disabled, status.Keys)
    {
      page.DestroyAllPanels();
      issued := NativeName(c, hiliteExecutable);
      Refresh(status);
    }

    /** The source item's handler, `_toggleMode`, and then the document's
        handler the click bubbles up to, which removes all panels; the
        source item is never a panel's, so its class survives. */
    method SourceClicked(status: map<Command, Status>)
      requires page.Valid()
      requires status.Keys <= Toggles + Guarded
      modifies this, page
      ensures page.Valid() && page.panel == None
      ensures (body, origin) == Switched(!old(IsHtmlMode()), old(body), old(origin))
      ensures IsHtmlMode() <==> !old(IsHtmlMode()) && Source in toolbar
      ensures old(IsHtmlMode()) ==>
                page.active == Closed(old(page.panel), Classed(old(page.active) - {Item(id, Source)}, status, Active, status.Keys)) &&
                page.disabled == Classed(old(page.disabled) - Others(), status, Disabled, status.Keys)
      ensures !old(IsHtmlMode()) ==>
                page.active == Closed(old(page.panel), old(page.active) + (if Source in toolbar then {Item(id, Source)} else {})) &&
                page.disabled == old(page.disabled) + Others()
    {
      ToggleMode(status);
      var open := page.panel;
      var before := page.active;
      page.DestroyAllPanels();
      ClosedItems(open, before, Item(id, Source));
    }

    /** A click on this widget's item for `c`: a disabled item stops the
        click there and nothing changes. Otherwise the source item switches
        the view, a command with a panel opens (or closes) its panel and
        keeps the click to itself, and any other known command runs; every
        click that is not kept reaches the document, which removes all
        panels. */
    method Click(c: Command, hiliteExecutable: bool, status: map<Command, Status>)
      returns (issued: Option<string>)
      requires c in toolbar
      requires page.Valid()
      requires status.Keys <= Toggles + Guarded
      modifies this, page
      ensures page.Valid()
      ensures old(Item(id, c) in page.disabled) ==>
                issued == None && body == old(body) && origin == old(origin) &&
                page.panel == old(page.panel) && page.active == old(page.active) &&
                page.disabled == old(page.disabled)
      ensures issued.Some? <==> Item(id, c) !in old(page.disabled) && c in GenericCommands
      ensures issued.Some? ==> issued.value == NativeName(c, hiliteExecutable)
      ensures Item(id, c) !in old(page.disabled) && c !in PanelCommands ==> page.panel == None
      ensures Item(id, c) !in old(page.disabled) && c == Source ==>
                (body, origin) == Switched(!old(IsHtmlMode()), old(body), old(origin)) &&
                (IsHtmlMode() <==> !old(IsHtmlMode()))
      ensures Item(id, c) !in old(page.disabled) && c == Source && old(IsHtmlMode()) ==>
                page.active == Closed(old(page.panel), Classed(old(page.active) - {Item(id, Source)}, status, Active, status.Keys)) &&
                page.disabled == Classed(old(page.disabled) - Others(), status, Disabled, status.Keys)
      ensures Item(id, c) !in old(page.disabled) && c == Source && !old(IsHtmlMode()) ==>
                page.active == Closed(old(page.panel), old(page.active) + {Item(id, Source)}) &&
                page.disabled == old(page.disabled) + Others()
      ensures Item(id, c) !in old(page.disabled) && c in GenericCommands ==>
                page.active == Classed(Closed(old(page.panel), old(page.active)), status, Active, status.Keys) &&
                page.disabled == Classed(old(page.disabled), status, Disabled, status.Keys)
      ensures Item(id, c) !in old(page.disabled) && c in PanelCommands ==>
                (page.panel, page.active) == Opened(old(page.panel), old(page.active), id, c) &&
                page.disabled == old(page.disabled) && body == old(body) && origin == old(origin)
      ensures Item(id, c) !in old(page.disabled) && c == Separator ==>
                page.active == Closed(old(page.panel), old(page.active)) &&
                page.disabled == old(page.disabled) && body == old(body) && origin == old(origin)
    {
      issued := None;
      if Item(id, c) in page.disabled {
        return;
      }
      PanelCommandsApart(c);
      if c == Source {
        SourceClicked(status);
      } else if c in GenericCommands {
        var name := ExecCommand(c, hiliteExecutable, status);
        issued := Some(name);
        page.DestroyAllPanels();
      } else if c in PanelCommands {
        page.OpenPanel(id, c);
      } else {
        page.DestroyAllPanels();
      }
    }
  }
}
