/** The toolbar layout of src/cazary.js (`createCommandsWrapper`): the
    `commands` option names a pre-defined macro or gives rows of
    space-separated command identifiers; each row becomes one list of toolbar
    items, `|` becomes a separator and unknown identifiers are skipped. */
module Layout {
  import opened Wrappers
  import opened Text
  import opened Commands
  import opened Sequences

  /** The `commands` option: a string, or an array of row strings. */
  datatype Spec = Named(name: string) | Rows(rows: seq<string>)

  /** The pre-defined layouts, as the commands of each row in order; each
      row string is the rows' commands spelt out and separated by spaces (see
      `RowText`), which gives the same text as the widget's macro table. */
  const MinimalItems: seq<seq<Command>> := [[Bold, Italic, Underline, StrikeThrough, RemoveFormat]]

  const StandardItems: seq<seq<Command>> := [
    [FontName, FontSize],
    [Bold, Italic, Underline, StrikeThrough, RemoveFormat, Separator, ForeColor, BackColor, Separator, Superscript, Subscript],
    [Source]
  ]

  const FullItems: seq<seq<Command>> := [
    [FontName, FontSize],
    [Bold, Italic, Underline, StrikeThrough, RemoveFormat, Separator, ForeColor, BackColor, Separator, Superscript, Subscript],
    [JustifyLeft, JustifyCenter, JustifyRight, JustifyFull, Separator, Indent, Outdent, Separator, OrderedList, UnorderedList],
    [HorizontalRule, InsertImage, CreateLink, Unlink],
    [Undo, Redo],
    [Source]
  ]

  /** A row written out: the commands' spellings separated by single spaces. */
  function RowText(cs: seq<Command>): string {
    Join(Map(Spelling, cs), ' ')
  }

  const Minimal: seq<string> := Map(RowText, MinimalItems)
  const Standard: seq<string> := Map(RowText, StandardItems)
  const Full: seq<string> := Map(RowText, FullItems)

  /** The items of each pre-defined layout. */
  function MacroItems(name: string): Option<seq<seq<Command>>> {
    if name == "MINIMAL" then Some(MinimalItems)
    else if name == "STANDARD" then Some(StandardItems)
    else if name == "FULL" then Some(FullItems)
    else None
  }

  /** `PRE_DEFINED_MACROS[name]`; the keys are matched exactly, case included. */
  function Macro(name: string): Option<seq<string>> {
    if name == "MINIMAL" then Some(Minimal)
    else if name == "STANDARD" then Some(Standard)
    else if name == "FULL" then Some(Full)
    else None
  }

  /** The rows the option stands for: a macro's rows, a single row for any
      other string, or the given array. */
  function Expand(spec: Spec): seq<string> {
    match spec
    case Named(name) => if Macro(name).Some? then Macro(name).value else [name]
    case Rows(rows) => rows
  }

  /** The command a lower-cased token stands for: `|` is the separator, and a
      token that is not a key of the caption table stands for nothing. */
  function TokenCommand(token: string): (r: Option<Command>)
    ensures r.Some? ==> token == "|" || token == Name(r.value)
    ensures token == "|" ==> r == Some(Separator)
  {
    if token == "|" then Some(Separator) else Lookup(token)
  }

  /** The items the tokens produce, in order. */
  function Keep(tokens: seq<string>): seq<Command> {
    FilterMap(TokenCommand, tokens)
  }

  /** The tokens of a row: lower-cased, then split at every space. */
  function Tokens(row: string): (tokens: seq<string>)
    ensures |tokens| >= 1
  {
    Split(ToLower(row), ' ')
  }

  /** The items of one row. */
  function RowCommands(row: string): seq<Command> {
    Keep(Tokens(row))
  }

  /** `createCommandsWrapper`: one list of items per row, in order. */
  method BuildToolbar(spec: Spec) returns (toolbar: seq<seq<Command>>)
    ensures spec.Named? && MacroItems(spec.name).Some? ==> toolbar == MacroItems(spec.name).value
    ensures spec.Named? && MacroItems(spec.name).None? ==> toolbar == [RowCommands(spec.name)]
    ensures spec.Rows? ==> |toolbar| == |spec.rows| &&
                           forall i | 0 <= i < |toolbar| :: toolbar[i] == RowCommands(spec.rows[i])
  {
    toolbar := BuildRows(Expand(spec));
    if spec.Named? && MacroItems(spec.name).Some? {
      MacroToolbar(spec.name);
    }
  }

  /** The outer `$.each` over the rows. */
  method BuildRows(rows: seq<string>) returns (toolbar: seq<seq<Command>>)
    ensures |toolbar| == |rows|
    ensures forall i | 0 <= i < |rows| :: toolbar[i] == RowCommands(rows[i])
  {
    toolbar := [];
    for i := 0 to |rows|
      invariant |toolbar| == i
      invariant forall k | 0 <= k < i :: toolbar[k] == RowCommands(rows[k])
    {
      var list := BuildRow(rows[i]);
      toolbar := toolbar + [list];
    }
  }

  /** The inner `$.each` over one row's tokens. */
  method BuildRow(row: string) returns (list: seq<Command>)
    ensures list == RowCommands(row)
  {
    var tokens := Tokens(row);
    list := [];
    for j := 0 to |tokens|
      invariant list == Keep(tokens[..j])
    {
      var command := tokens[j];
      if command == "|" {
        command := "separator";
      }
      var c := Lookup(command);
      TokenLookup(tokens[j]);
      if c.Some? {
        list := list + [c.value];
      }
      assert tokens[..j + 1][..j] == tokens[..j];
    }
    assert tokens[..|tokens|] == tokens;
  }

  /** Replacing `|` by `separator` and then looking the token up is the
      token's command. */
  lemma TokenLookup(token: string)
    ensures Lookup(if token == "|" then "separator" else token) == TokenCommand(token)
  {
    LookupName(Separator);
  }

  /** Every item of a row comes from one of its tokens, and a row has no more
      items than tokens. */
  lemma RowFromTokens(row: string)
    ensures forall c | c in RowCommands(row) :: exists t | t in Tokens(row) :: TokenCommand(t) == Some(c)
    ensures |RowCommands(row)| <= |Tokens(row)|
  {
    FilterMapFrom(TokenCommand, Tokens(row));
  }

  /** Items are produced token by token: a row split into two token runs gives
      the items of the first run, then those of the second. */
  lemma KeepAppend(a: seq<string>, b: seq<string>)
    ensures Keep(a + b) == Keep(a) + Keep(b)
  {
    FilterMapAppend(TokenCommand, a, b);
  }

  /** How a row spells a command: `|` for the separator, otherwise its
      identifier. */
  function Spelling(c: Command): string {
    if c == Separator then "|" else Name(c)
  }

  /** Writing commands down, separated by single spaces, and reading the row
      back yields exactly those commands. */
  lemma RowOfSpellings(cs: seq<Command>)
    ensures RowCommands(Join(Map(Spelling, cs), ' ')) == cs
  {
    var words := Map(Spelling, cs);
    forall p | p in words ensures Plain(p) {
      var k :| 0 <= k < |words| && words[k] == p;
      SpellingPlain(cs[k]);
    }
    var row := Join(words, ' ');
    JoinPlain(words);
    ToLowerIdentity(row);
    if cs == [] {
      assert Tokens(row) == [""];
      assert TokenCommand("") == None;
    } else {
      SplitJoin(words, ' ');
      forall c ensures TokenCommand(Spelling(c)) == Some(c) {
        TokenSpelling(c);
      }
      FilterMapInverse(TokenCommand, Spelling, cs);
    }
  }

  /** The spelling of a command reads back as that command. */
  lemma TokenSpelling(c: Command)
    ensures TokenCommand(Spelling(c)) == Some(c)
  {
    if c != Separator {
      NameLetters(c);
      LookupName(c);
    }
  }

  /** No space, and nothing that lower-casing changes. */
  predicate Plain(s: string) {
    forall k | 0 <= k < |s| :: s[k] != ' ' && !('A' <= s[k] <= 'Z') && s[k] != '\U{212A}'
  }

  lemma SpellingPlain(c: Command)
    ensures Plain(Spelling(c))
  {
    if c != Separator {
      NameLetters(c);
    }
  }

  /** Identifiers are made of lower-case ASCII letters. */
  lemma NameLetters(c: Command)
    ensures Letters(Name(c))
  {
    IdentifierLetters1();
    IdentifierLetters2();
    IdentifierLetters3();
    IdentifierLetters4();
    IdentifierLetters5();
    IdentifierLetters6();
  }

  lemma IdentifierLetters1()
    ensures Letters("fontname") && Letters("fontsize") && Letters("bold") && Letters("italic") && Letters("underline")
  {
  }

  lemma IdentifierLetters2()
    ensures Letters("strikethrough") && Letters("removeformat") && Letters("forecolor") && Letters("backcolor") && Letters("superscript")
  {
  }

  lemma IdentifierLetters3()
    ensures Letters("subscript") && Letters("justifyleft") && Letters("justifycenter") && Letters("justifyright") && Letters("justifyfull")
  {
  }

  lemma IdentifierLetters4()
    ensures Letters("indent") && Letters("outdent") && Letters("insertorderedlist") && Letters("insertunorderedlist") && Letters("inserthorizontalrule")
  {
  }

  lemma IdentifierLetters5()
    ensures Letters("insertimage") && Letters("createlink") && Letters("unlink") && Letters("undo") && Letters("redo")
  {
  }

  lemma IdentifierLetters6()
    ensures Letters("source") && Letters("separator")
  {
  }

  /** Joining plain pieces with spaces leaves nothing for lower-casing to
      change. */
  lemma {:induction false} JoinPlain(parts: seq<string>)
    requires forall p | p in parts :: Plain(p)
    ensures forall k | 0 <= k < |Join(parts, ' ')| ::
              !('A' <= Join(parts, ' ')[k] <= 'Z') && Join(parts, ' ')[k] != '\U{212A}'
    decreases |parts|
  {
    if |parts| >= 2 {
      var rest := parts[1..];
      assert parts[0] in parts;
      assert forall p | p in rest :: p in parts;
      JoinPlain(rest);
      var s := Join(parts, ' ');
      assert s == parts[0] + [' '] + Join(rest, ' ');
      forall k | 0 <= k < |s| ensures !('A' <= s[k] <= 'Z') && s[k] != '\U{212A}' {
        if k < |parts[0]| {
          assert s[k] == parts[0][k];
        } else if k > |parts[0]| {
          assert s[k] == Join(rest, ' ')[k - |parts[0]| - 1];
        }
      }
    } else if |parts| == 1 {
      assert parts[0] in parts;
    }
  }

  /** A pre-defined layout gives its rows' commands, in order. */
  lemma MacroToolbar(name: string)
    requires Macro(name).Some?
    ensures MacroItems(name).Some?
    ensures |Macro(name).value| == |MacroItems(name).value|
    ensures forall i | 0 <= i < |Macro(name).value| ::
              RowCommands(Macro(name).value[i]) == MacroItems(name).value[i]
  {
    var items := MacroItems(name).value;
    forall i | 0 <= i < |items| ensures RowCommands(RowText(items[i])) == items[i] {
      RowOfSpellings(items[i]);
    }
  }

  /** The full layout offers every command. */
  lemma FullOffersAll(c: Command)
    ensures exists i | 0 <= i < |FullItems| :: c in FullItems[i]
  {
    match c
    case FontName | FontSize => assert c in FullItems[0];
    case Bold | Italic | Underline | StrikeThrough | RemoveFormat | Separator | ForeColor | BackColor | Superscript | Subscript =>
      assert c in FullItems[1];
    case JustifyLeft | JustifyCenter | JustifyRight | JustifyFull | Indent | Outdent | OrderedList | UnorderedList =>
      assert c in FullItems[2];
    case HorizontalRule | InsertImage | CreateLink | Unlink => assert c in FullItems[3];
    case Undo | Redo => assert c in FullItems[4];
    case Source => assert c in FullItems[5];
  }
}
