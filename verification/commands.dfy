/** The command vocabulary of src/cazary.js: the identifiers that name native
    editing commands, toolbar items (`cazary-command-<name>`) and layout tokens. */
module Commands {
  import opened Wrappers

  datatype Command =
    | FontName | FontSize
    | Bold | Italic | Underline | StrikeThrough | RemoveFormat
    | ForeColor | BackColor
    | Superscript | Subscript
    | JustifyLeft | JustifyCenter | JustifyRight | JustifyFull
    | Indent | Outdent
    | OrderedList | UnorderedList
    | HorizontalRule | InsertImage | CreateLink | Unlink
    | Undo | Redo
    | Source
    | Separator

  /** The identifier of a command, as a key of `ASSOC_COMMANDNAMES`. */
  function Name(c: Command): string {
    match c
    case FontName => "fontname"
    case FontSize => "fontsize"
    case Bold => "bold"
    case Italic => "italic"
    case Underline => "underline"
    case StrikeThrough => "strikethrough"
    case RemoveFormat => "removeformat"
    case ForeColor => "forecolor"
    case BackColor => "backcolor"
    case Superscript => "superscript"
    case Subscript => "subscript"
    case JustifyLeft => "justifyleft"
    case JustifyCenter => "justifycenter"
    case JustifyRight => "justifyright"
    case JustifyFull => "justifyfull"
    case Indent => "indent"
    case Outdent => "outdent"
    case OrderedList => "insertorderedlist"
    case UnorderedList => "insertunorderedlist"
    case HorizontalRule => "inserthorizontalrule"
    case InsertImage => "insertimage"
    case CreateLink => "createlink"
    case Unlink => "unlink"
    case Undo => "undo"
    case Redo => "redo"
    case Source => "source"
    case Separator => "separator"
  }

  /** Lookup of a lower-cased token among the keys of `ASSOC_COMMANDNAMES`,
      decided on the first character and then by comparison. */
  function Lookup(token: string): (r: Option<Command>)
    ensures r.Some? ==> Name(r.value) == token
  {
    if |token| == 0 then None
    else match token[0]
      case 's' => if token == Name(Separator) then Some(Separator) else if token == Name(StrikeThrough) then Some(StrikeThrough) else if token == Name(Superscript) then Some(Superscript) else if token == Name(Subscript) then Some(Subscript) else if token == Name(Source) then Some(Source) else None
      case 'f' => if token == Name(FontName) then Some(FontName) else if token == Name(FontSize) then Some(FontSize) else if token == Name(ForeColor) then Some(ForeColor) else None
      case 'b' => if token == Name(Bold) then Some(Bold) else if token == Name(BackColor) then Some(BackColor) else None
      case 'i' => if token == Name(Italic) then Some(Italic) else if token == Name(Indent) then Some(Indent) else if token == Name(OrderedList) then Some(OrderedList) else if token == Name(UnorderedList) then Some(UnorderedList) else if token == Name(HorizontalRule) then Some(HorizontalRule) else if token == Name(InsertImage) then Some(InsertImage) else None
      case 'u' => if token == Name(Underline) then Some(Underline) else if token == Name(Unlink) then Some(Unlink) else if token == Name(Undo) then Some(Undo) else None
      case 'r' => if token == Name(RemoveFormat) then Some(RemoveFormat) else if token == Name(Redo) then Some(Redo) else None
      case 'j' => if token == Name(JustifyLeft) then Some(JustifyLeft) else if token == Name(JustifyCenter) then Some(JustifyCenter) else if token == Name(JustifyRight) then Some(JustifyRight) else if token == Name(JustifyFull) then Some(JustifyFull) else None
      case 'o' => if token == Name(Outdent) then Some(Outdent) else None
      case 'c' => if token == Name(CreateLink) then Some(CreateLink) else None
      case _ => None
  }

  /** Every command's identifier is found by the lookup, so identifiers are
      also pairwise distinct. */
  lemma LookupName(c: Command)
    ensures Lookup(Name(c)) == Some(c)
  {
    match c
    case Bold | BackColor => LookupNameB(c);
    case FontName | FontSize | ForeColor => LookupNameF(c);
    case Italic | Indent | OrderedList | UnorderedList | HorizontalRule | InsertImage => LookupNameI(c);
    case JustifyLeft | JustifyCenter | JustifyRight | JustifyFull => LookupNameJ(c);
    case StrikeThrough | Superscript | Subscript | Source | Separator => LookupNameS(c);
    case Underline | Unlink | Undo => LookupNameU(c);
    case CreateLink | Outdent | RemoveFormat | Redo => LookupNameCOR(c);
  }

  /** `LookupName` for the identifiers starting with `b`. */
  lemma LookupNameB(c: Command)
    requires c.Bold? || c.BackColor?
    ensures Lookup(Name(c)) == Some(c)
  {
    match c
    case Bold => assert Name(Bold) == "bold";
    case BackColor => assert Name(BackColor) == "backcolor";
  }

  /** `LookupName` for the identifiers starting with `f`. */
  lemma LookupNameF(c: Command)
    requires c.FontName? || c.FontSize? || c.ForeColor?
    ensures Lookup(Name(c)) == Some(c)
  {
    match c
    case FontName => assert Name(FontName) == "fontname";
    case FontSize => assert Name(FontSize) == "fontsize";
    case ForeColor => assert Name(ForeColor) == "forecolor";
  }

  /** `LookupName` for the identifiers starting with `i`. */
  lemma LookupNameI(c: Command)
    requires c.Italic? || c.Indent? || c.OrderedList? || c.UnorderedList? || c.HorizontalRule? || c.InsertImage?
    ensures Lookup(Name(c)) == Some(c)
  {
    match c
    case Italic => assert Name(Italic) == "italic";
    case Indent => assert Name(Indent) == "indent";
    case OrderedList => assert Name(OrderedList) == "insertorderedlist";
    case UnorderedList => assert Name(UnorderedList) == "insertunorderedlist";
    case HorizontalRule => assert Name(HorizontalRule) == "inserthorizontalrule";
    case InsertImage => assert Name(InsertImage) == "insertimage";
  }

  /** `LookupName` for the identifiers starting with `j`. */
  lemma LookupNameJ(c: Command)
    requires c.JustifyLeft? || c.JustifyCenter? || c.JustifyRight? || c.JustifyFull?
    ensures Lookup(Name(c)) == Some(c)
  {
    match c
    case JustifyLeft => assert Name(JustifyLeft) == "justifyleft";
    case JustifyCenter => assert Name(JustifyCenter) == "justifycenter";
    case JustifyRight => assert Name(JustifyRight) == "justifyright";
    case JustifyFull => assert Name(JustifyFull) == "justifyfull";
  }

  /** `LookupName` for the identifiers starting with `s`. */
  lemma LookupNameS(c: Command)
    requires c.StrikeThrough? || c.Superscript? || c.Subscript? || c.Source? || c.Separator?
    ensures Lookup(Name(c)) == Some(c)
  {
    match c
    case StrikeThrough => assert Name(StrikeThrough) == "strikethrough";
    case Superscript => assert Name(Superscript) == "superscript";
    case Subscript => assert Name(Subscript) == "subscript";
    case Source => assert Name(Source) == "source";
    case Separator => assert Name(Separator) == "separator";
  }

  /** `LookupName` for the identifiers starting with `u`. */
  lemma LookupNameU(c: Command)
    requires c.Underline? || c.Unlink? || c.Undo?
    ensures Lookup(Name(c)) == Some(c)
  {
    match c
    case Underline => assert Name(Underline) == "underline";
    case Unlink => assert Name(Unlink) == "unlink";
    case Undo => assert Name(Undo) == "undo";
  }

  /** `LookupName` for the identifiers starting with `c`, `o` or `r`. */
  lemma LookupNameCOR(c: Command)
    requires c.CreateLink? || c.Outdent? || c.RemoveFormat? || c.Redo?
    ensures Lookup(Name(c)) == Some(c)
  {
    match c
    case CreateLink => assert Name(CreateLink) == "createlink";
    case Outdent => assert Name(Outdent) == "outdent";
    case RemoveFormat => assert Name(RemoveFormat) == "removeformat";
    case Redo => assert Name(Redo) == "redo";
  }

  /** Commands that open a panel instead of running at once (`commands_with_panel`). */
  const PanelCommands: set<Command> :=
    {FontName, FontSize, ForeColor, BackColor, InsertImage, CreateLink}

  /** Commands that run at once on a click (`commands_generic`). */
  const GenericCommands: set<Command> :=
    {Bold, Italic, Underline, StrikeThrough, RemoveFormat, Superscript, Subscript,
     JustifyLeft, JustifyCenter, JustifyRight, JustifyFull, Indent, Outdent,
     OrderedList, UnorderedList, HorizontalRule, Unlink, Undo, Redo}

  /** The native command `_execCommand` of the editor core issues: a
      background colour becomes `hilitecolor` where the engine can execute that. */
  function NativeName(c: Command, hiliteExecutable: bool): (name: string)
    ensures name == "hilitecolor" <==> c == BackColor && hiliteExecutable
    ensures name != "hilitecolor" ==> Lookup(name) == Some(c)
  {
    LookupName(c);
    if c == BackColor && hiliteExecutable then "hilitecolor" else Name(c)
  }
}
