/** The command-status snapshot of the editor core (`_getCurrentStatus` in
    src/cazary.js): starting from the node at the selection and walking up
    through its ancestors, tags, `align` attributes and inline styles switch
    formatting commands to active and fill the font and colour slots; the link
    and history commands are disabled beforehand when they cannot run. */
module CommandStatus {
  import opened Wrappers
  import opened Text
  import opened Commands

  datatype Status = Normal | Active | Disabled

  /** The inline style properties the walk reads; `None` is `undefined`. */
  datatype Style = Style(
    fontFamily: Option<string>,
    fontWeight: Option<string>,
    fontStyle: Option<string>,
    textDecoration: Option<string>,
    color: Option<string>,
    backgroundColor: Option<string>,
    verticalAlign: Option<string>,
    textAlign: Option<string>)

  /** One node on the way from the selection to the document. A text node has
      no tag; `face`, `size` and `color` are read only from a `font` element. */
  datatype Node = Node(
    tag: Option<string>,
    face: string,
    size: string,
    color: string,
    align: Option<string>,
    style: Option<Style>)

  /** The result object: the four value slots (a missing key is `null`) and the
      status of every other command it lists. */
  datatype Snapshot = Snapshot(values: map<Command, string>, status: map<Command, Status>)

  /** Commands a node can make active. */
  const Toggles: set<Command> :=
    {Bold, Italic, Underline, StrikeThrough, Superscript, Subscript,
     JustifyLeft, JustifyCenter, JustifyRight, JustifyFull, OrderedList, UnorderedList}

  /** Commands disabled up front when they cannot run. */
  const Guarded: set<Command> := {CreateLink, Unlink, Undo, Redo}

  /** The guarded commands that also need a selection. */
  const Linking: set<Command> := {CreateLink, Unlink}

  /** Commands with a value instead of a status. */
  const ValueSlots: set<Command> := {FontName, FontSize, ForeColor, BackColor}

  /** The toggle a lower-cased tag name switches on. */
  function TagMark(tag: string): (r: Option<Command>)
    ensures r.Some? ==> r.value in Toggles
  {
    if tag == "b" || tag == "strong" then Some(Bold)
    else if tag == "i" || tag == "em" then Some(Italic)
    else if tag == "u" then Some(Underline)
    else if tag == "s" || tag == "strike" || tag == "del" then Some(StrikeThrough)
    else if tag == "sup" then Some(Superscript)
    else if tag == "sub" then Some(Subscript)
    else if tag == "ol" then Some(OrderedList)
    else if tag == "ul" then Some(UnorderedList)
    else None
  }

  /** The justification a lower-cased `align` attribute or `text-align` names. */
  function AlignMark(align: string): (r: Option<Command>)
    ensures r.Some? ==> r.value in Toggles
  {
    if align == "left" then Some(JustifyLeft)
    else if align == "center" then Some(JustifyCenter)
    else if align == "right" then Some(JustifyRight)
    else if align == "justify" then Some(JustifyFull)
    else None
  }

  /** A property that is present and, lower-cased, equals `word`. */
  predicate Keyword(p: Option<string>, word: string) {
    p.Some? && ToLower(p.value) == word
  }

  /** A property that is present and, lower-cased, contains `word`. */
  predicate Mentions(p: Option<string>, word: string) {
    p.Some? && Contains(ToLower(p.value), word)
  }

  function AsSet(o: Option<Command>): set<Command> {
    if o.Some? then {o.value} else {}
  }

  function MarkIf(b: bool, c: Command): set<Command> {
    if b then {c} else {}
  }

  /** What `font-weight`, `font-style` and `text-decoration` switch on. */
  function FaceMarks(st: Style): (m: set<Command>)
    ensures m <= {Bold, Italic, Underline, StrikeThrough}
  {
    MarkIf(Keyword(st.fontWeight, "bold") || Keyword(st.fontWeight, "bolder"), Bold)
    + MarkIf(Keyword(st.fontStyle, "italic") || Keyword(st.fontStyle, "oblique"), Italic)
    + MarkIf(Mentions(st.textDecoration, "underline"), Underline)
    + MarkIf(Mentions(st.textDecoration, "line-through"), StrikeThrough)
  }

  /** What `vertical-align` and `text-align` switch on. */
  function PlacementMarks(st: Style): (m: set<Command>)
    ensures m <= Toggles
  {
    MarkIf(Keyword(st.verticalAlign, "super"), Superscript)
    + MarkIf(Keyword(st.verticalAlign, "sub"), Subscript)
    + (if st.textAlign.Some? then AsSet(AlignMark(ToLower(st.textAlign.value))) else {})
  }

  function StyleMarks(st: Style): set<Command> {
    FaceMarks(st) + PlacementMarks(st)
  }

  function TagMarks(n: Node): set<Command> {
    if n.tag.Some? then AsSet(TagMark(ToLower(n.tag.value))) else {}
  }

  function AlignMarks(n: Node): set<Command> {
    if n.align.Some? then AsSet(AlignMark(ToLower(n.align.value))) else {}
  }

  /** Every command one node switches to active: by its tag, its `align`
      attribute and its inline style. Only toggles are ever switched on. */
  function Marks(n: Node): set<Command> {
    TagMarks(n) + AlignMarks(n) + (if n.style.Some? then StyleMarks(n.style.value) else {})
  }

  /** Some node of the chain switches `c` on. */
  predicate Marked(chain: seq<Node>, c: Command) {
    exists j | 0 <= j < |chain| :: c in Marks(chain[j])
  }

  function NonEmpty(s: string): Option<string> {
    if |s| > 0 then Some(s) else None
  }

  function NonEmptyProperty(p: Option<string>): Option<string> {
    if p.Some? && |p.value| > 0 then p else None
  }

  /** What a `font` element offers for a slot. */
  function FontOffer(n: Node, slot: Command): Option<string> {
    if n.tag.None? || ToLower(n.tag.value) != "font" then None
    else match slot
      case FontName => NonEmpty(n.face)
      case FontSize => NonEmpty(n.size)
      case ForeColor => NonEmpty(n.color)
      case _ => None
  }

  /** What an inline style offers for a slot. */
  function StyleValue(st: Style, slot: Command): Option<string> {
    match slot
    case FontName => NonEmptyProperty(st.fontFamily)
    case ForeColor => NonEmptyProperty(st.color)
    case BackColor => NonEmptyProperty(st.backgroundColor)
    case _ => None
  }

  function StyleOffer(n: Node, slot: Command): Option<string> {
    if n.style.None? then None else StyleValue(n.style.value, slot)
  }

  /** The value one node puts into an empty slot: its `font` attributes are
      read before its style, so they win within the node. */
  function Offer(n: Node, slot: Command): Option<string> {
    if FontOffer(n, slot).Some? then FontOffer(n, slot) else StyleOffer(n, slot)
  }

  /** Only the four value slots are ever offered, and never an empty string. */
  lemma OfferedSlot(n: Node, slot: Command)
    ensures Offer(n, slot).Some? ==> slot in ValueSlots && |Offer(n, slot).value| > 0
  {
  }

  /** The value of the innermost node that offers one. */
  function Innermost(chain: seq<Node>, slot: Command): Option<string>
    decreases |chain|
  {
    if chain == [] then None
    else if Offer(chain[0], slot).Some? then Offer(chain[0], slot)
    else Innermost(chain[1..], slot)
  }

  /** The slot as the result object holds it: `None` stands for `null`. */
  function Found(values: map<Command, string>, slot: Command): Option<string> {
    if slot in values then Some(values[slot]) else None
  }

  /** `after` is `before` with the commands of `m` switched to active. */
  predicate Activated(before: map<Command, Status>, after: map<Command, Status>, m: set<Command>) {
    after.Keys == before.Keys &&
    forall c | c in before :: after[c] == (if c in m then Active else before[c])
  }

  lemma ActivatedTwice(a: map<Command, Status>, b: map<Command, Status>, c: map<Command, Status>,
                       m1: set<Command>, m2: set<Command>)
    requires Activated(a, b, m1) && Activated(b, c, m2)
    ensures Activated(a, c, m1 + m2)
  {
  }

  /** The tag part of the loop body. */
  method ApplyTag(n: Node, status: map<Command, Status>, values: map<Command, string>)
    returns (status': map<Command, Status>, values': map<Command, string>)
    requires Toggles <= status.Keys
    ensures Activated(status, status', TagMarks(n))
    ensures forall slot :: Found(values', slot) ==
                             (if Found(values, slot).Some? then Found(values, slot) else FontOffer(n, slot))
  {
    status', values' := status, values;
    if n.tag.Some? {
      var tag := ToLower(n.tag.value);
      var mark := TagMark(tag);
      if mark.Some? {
        status' := status'[mark.value := Active];
      }
      if tag == "font" {
        if |n.face| > 0 && FontName !in values' {
          values' := values'[FontName := n.face];
        }
        if |n.size| > 0 && FontSize !in values' {
          values' := values'[FontSize := n.size];
        }
        if |n.color| > 0 && ForeColor !in values' {
          values' := values'[ForeColor := n.color];
        }
      }
    }
  }

  /** The `align` attribute part of the loop body. */
  method ApplyAlign(n: Node, status: map<Command, Status>) returns (status': map<Command, Status>)
    requires Toggles <= status.Keys
    ensures Activated(status, status', AlignMarks(n))
  {
    status' := status;
    if n.align.Some? {
      var mark := AlignMark(ToLower(n.align.value));
      if mark.Some? {
        status' := status'[mark.value := Active];
      }
    }
  }

  /** The first part of the inline style: font family, weight, style and
      decoration. */
  method ApplyFontStyle(st: Style, status: map<Command, Status>, values: map<Command, string>)
    returns (status': map<Command, Status>, values': map<Command, string>)
    requires Toggles <= status.Keys
    ensures Activated(status, status', FaceMarks(st))
    ensures forall slot :: Found(values', slot) ==
                             (if Found(values, slot).Some? then Found(values, slot)
                              else if slot == FontName then StyleValue(st, slot) else None)
  {
    status', values' := status, values;
    if st.fontFamily.Some? && |st.fontFamily.value| > 0 && FontName !in values' {
      values' := values'[FontName := st.fontFamily.value];
    }
    if Keyword(st.fontWeight, "bold") || Keyword(st.fontWeight, "bolder") {
      status' := status'[Bold := Active];
    }
    if Keyword(st.fontStyle, "italic") || Keyword(st.fontStyle, "oblique") {
      status' := status'[Italic := Active];
    }
    if Mentions(st.textDecoration, "underline") {
      status' := status'[Underline := Active];
    }
    if Mentions(st.textDecoration, "line-through") {
      status' := status'[StrikeThrough := Active];
    }
  }

  /** The second part of the inline style: text and background colour. */
  method ApplyColorStyle(st: Style, values: map<Command, string>) returns (values': map<Command, string>)
    ensures forall slot :: Found(values', slot) ==
                             (if Found(values, slot).Some? then Found(values, slot)
                              else if slot == FontName then None else StyleValue(st, slot))
  {
    values' := values;
    if st.color.Some? && |st.color.value| > 0 && ForeColor !in values' {
      values' := values'[ForeColor := st.color.value];
    }
    if st.backgroundColor.Some? && |st.backgroundColor.value| > 0 && BackColor !in values' {
      values' := values'[BackColor := st.backgroundColor.value];
    }
  }

  /** The last part of the inline style: vertical and horizontal alignment. */
  method ApplyPlacementStyle(st: Style, status: map<Command, Status>) returns (status': map<Command, Status>)
    requires Toggles <= status.Keys
    ensures Activated(status, status', PlacementMarks(st))
  {
    status' := status;
    if Keyword(st.verticalAlign, "super") {
      status' := status'[Superscript := Active];
    } else if Keyword(st.verticalAlign, "sub") {
      status' := status'[Subscript := Active];
    }
    if st.textAlign.Some? {
      var mark := AlignMark(ToLower(st.textAlign.value));
      if mark.Some? {
        status' := status'[mark.value := Active];
      }
    }
  }

  /** The inline-style part of the loop body. */
  method ApplyStyle(st: Style, status: map<Command, Status>, values: map<Command, string>)
    returns (status': map<Command, Status>, values': map<Command, string>)
    requires Toggles <= status.Keys
    ensures Activated(status, status', StyleMarks(st))
    ensures forall slot :: Found(values', slot) ==
                             (if Found(values, slot).Some? then Found(values, slot) else StyleValue(st, slot))
  {
    var s1, v1 := ApplyFontStyle(st, status, values);
    values' := ApplyColorStyle(st, v1);
    status' := ApplyPlacementStyle(st, s1);
    ActivatedTwice(status, s1, status', FaceMarks(st), PlacementMarks(st));
  }

  /** The loop body for one node: its tag, then its `align` attribute, then its
      inline style. */
  method ApplyNode(n: Node, status: map<Command, Status>, values: map<Command, string>)
    returns (status': map<Command, Status>, values': map<Command, string>)
    requires Toggles <= status.Keys
    ensures Activated(status, status', Marks(n))
    ensures forall slot :: Found(values', slot) ==
                             (if Found(values, slot).Some? then Found(values, slot) else Offer(n, slot))
  {
    var s1, v1 := ApplyTag(n, status, values);
    var s2 := ApplyAlign(n, s1);
    ActivatedTwice(status, s1, s2, TagMarks(n), AlignMarks(n));
    if n.style.Some? {
      status', values' := ApplyStyle(n.style.value, s2, v1);
      ActivatedTwice(status, s2, status', TagMarks(n) + AlignMarks(n), StyleMarks(n.style.value));
    } else {
      status', values' := s2, v1;
    }
  }

  /** `_getCurrentStatus`: `chain` runs from the node at the selection up to the
      document, `selectedText` is the selected text and `executable` the
      commands the engine reports as executable. */
  method CurrentStatus(chain: seq<Node>, selectedText: string, executable: set<Command>)
    returns (r: Snapshot)
    ensures r.status.Keys == Toggles + Guarded
    ensures forall c | c in Toggles :: r.status[c] == if Marked(chain, c) then Active else Normal
    ensures forall c | c in Guarded ::
              r.status[c] == (if c !in executable || (selectedText == "" && c in Linking) then Disabled else Normal)
    ensures r.values.Keys <= ValueSlots
    ensures forall slot :: Found(r.values, slot) == Innermost(chain, slot)
  {
    var status := Prechecks(selectedText, executable);
    var status', values := Walk(chain, status);
    forall c | c in Toggles ensures status'[c] == if Marked(chain, c) then Active else Normal {
      MarkedAll(chain, c);
      GuardedNeverMarked(Toggles, c);
    }
    AllMarksAreToggles(chain);
    forall c | c in Guarded ensures status'[c] == status[c] {
      GuardedNeverMarked(AllMarks(chain), c);
    }
    forall slot | slot in values ensures slot in ValueSlots {
      assert Found(values, slot).Some?;
      InnermostOffered(chain, slot);
    }
    r := Snapshot(values, status');
  }

  lemma GuardedNeverMarked(m: set<Command>, c: Command)
    requires m <= Toggles
    ensures c in Guarded ==> c !in m
  {
  }

  /** Only toggles are ever switched on. */
  lemma MarksAreToggles(n: Node)
    ensures Marks(n) <= Toggles
  {
  }

  lemma AllMarksAreToggles(chain: seq<Node>)
    ensures AllMarks(chain) <= Toggles
  {
    forall c | c in AllMarks(chain) ensures c in Toggles {
      MarkedAll(chain, c);
      var j :| 0 <= j < |chain| && c in Marks(chain[j]);
      MarksAreToggles(chain[j]);
    }
  }

  /** The result object before the walk: every command normal, then the link
      commands disabled without a selection and the four guarded commands
      disabled when the engine cannot execute them. */
  method Prechecks(selectedText: string, executable: set<Command>) returns (status: map<Command, Status>)
    ensures status.Keys == Toggles + Guarded
    ensures forall c | c in status ::
              status[c] == (if c in Guarded && (c !in executable || (selectedText == "" && c in Linking))
                            then Disabled else Normal)
  {
    status := map c | c in Toggles + Guarded :: Normal;
    if selectedText == "" {
      status := status[CreateLink := Disabled][Unlink := Disabled];
    }
    status := DisableUnexecutable(status, executable);
  }

  /** The `$.each` over the link and history commands: each one the engine
      cannot execute becomes disabled, and nothing else changes. */
  method DisableUnexecutable(status: map<Command, Status>, executable: set<Command>)
    returns (status': map<Command, Status>)
    requires Guarded <= status.Keys
    ensures status'.Keys == status.Keys
    ensures forall c | c in status ::
              status'[c] == (if c in Guarded && c !in executable then Disabled else status[c])
  {
    status' := status;
    var guarded := [CreateLink, Unlink, Undo, Redo];
    for k := 0 to 4
      invariant status'.Keys == status.Keys
      invariant forall c | c in status ::
                  status'[c] == (if c in guarded[..k] && c !in executable then Disabled else status[c])
    {
      if guarded[k] !in executable {
        status' := status'[guarded[k] := Disabled];
      }
      assert guarded[..k + 1] == guarded[..k] + [guarded[k]];
    }
    assert guarded[..4] == guarded;
  }

  /** The `while(node !== null)` loop: every node of `chain`, innermost first. */
  method Walk(chain: seq<Node>, status: map<Command, Status>)
    returns (status': map<Command, Status>, values: map<Command, string>)
    requires Toggles <= status.Keys
    ensures Activated(status, status', AllMarks(chain))
    ensures forall slot :: Found(values, slot) == Innermost(chain, slot)
  {
    status', values := status, map[];
    var i := 0;
    while i < |chain|
      invariant 0 <= i <= |chain|
      invariant Activated(status, status', AllMarks(chain[..i]))
      invariant forall slot :: Found(values, slot) == Innermost(chain[..i], slot)
    {
      var s, v := ApplyNode(chain[i], status', values);
      ActivatedTwice(status, status', s, AllMarks(chain[..i]), Marks(chain[i]));
      AllMarksStep(chain, i);
      ValuesStep(chain, i, values, v);
      status', values := s, v;
      i := i + 1;
    }
    assert chain[..i] == chain;
  }

  /** The slots after one more node: what the inner nodes left empty and
      this node offers. */
  lemma ValuesStep(chain: seq<Node>, i: nat, values: map<Command, string>, values': map<Command, string>)
    requires i < |chain|
    requires forall slot :: Found(values, slot) == Innermost(chain[..i], slot)
    requires forall slot :: Found(values', slot) ==
                              (if Found(values, slot).Some? then Found(values, slot) else Offer(chain[i], slot))
    ensures forall slot :: Found(values', slot) == Innermost(chain[..i + 1], slot)
  {
    assert chain[..i + 1] == chain[..i] + [chain[i]];
    forall slot ensures Found(values', slot) == Innermost(chain[..i + 1], slot) {
      InnermostAppend(chain[..i], [chain[i]], slot);
    }
  }

  /** Every command some node of `chain` switches on. */
  function AllMarks(chain: seq<Node>): set<Command> {
    UnionOf(Marks, chain)
  }

  /** The union of `f` over the nodes of `chain`, last node last. */
  function UnionOf(f: Node -> set<Command>, chain: seq<Node>): set<Command>
    decreases |chain|
  {
    if chain == [] then {} else UnionOf(f, chain[..|chain| - 1]) + f(chain[|chain| - 1])
  }

  lemma AllMarksStep(chain: seq<Node>, i: nat)
    requires i < |chain|
    ensures AllMarks(chain[..i + 1]) == AllMarks(chain[..i]) + Marks(chain[i])
  {
    assert chain[..i + 1][..i] == chain[..i];
  }

  /** A command is in the union exactly when some node's set holds it. */
  lemma {:induction false} UnionOfHas(f: Node -> set<Command>, chain: seq<Node>, c: Command)
    ensures c in UnionOf(f, chain) <==> exists j | 0 <= j < |chain| :: c in f(chain[j])
    decreases |chain|
  {
    if chain != [] {
      var init := chain[..|chain| - 1];
      var last := chain[|chain| - 1];
      UnionOfHas(f, init, c);
      if c in UnionOf(f, init) {
        var j :| 0 <= j < |init| && c in f(init[j]);
        assert chain[j] == init[j];
      } else if c in f(last) {
        assert chain[|chain| - 1] == last;
      } else {
        forall j | 0 <= j < |chain| ensures c !in f(chain[j]) {
          if j < |init| {
            assert chain[j] == init[j];
          }
        }
      }
    }
  }

  /** The walk's union of marks is exactly the set of commands some node marks. */
  lemma MarkedAll(chain: seq<Node>, c: Command)
    ensures c in AllMarks(chain) <==> Marked(chain, c)
  {
    UnionOfHas(Marks, chain, c);
  }

  /** Outer nodes fill only what inner ones left empty. */
  lemma {:induction false} InnermostAppend(inner: seq<Node>, outer: seq<Node>, slot: Command)
    ensures Innermost(inner + outer, slot) ==
      if Innermost(inner, slot).Some? then Innermost(inner, slot) else Innermost(outer, slot)
    decreases |inner|
  {
    if inner == [] {
      assert inner + outer == outer;
    } else {
      assert (inner + outer)[0] == inner[0];
      assert (inner + outer)[1..] == inner[1..] + outer;
      InnermostAppend(inner[1..], outer, slot);
    }
  }

  /** A filled slot holds a non-empty value some node of the chain offered. */
  lemma {:induction false} InnermostOffered(chain: seq<Node>, slot: Command)
    ensures Innermost(chain, slot).Some? ==>
      slot in ValueSlots && |Innermost(chain, slot).value| > 0 &&
      exists j | 0 <= j < |chain| :: Offer(chain[j], slot) == Innermost(chain, slot)
    decreases |chain|
  {
    if chain != [] {
      OfferedSlot(chain[0], slot);
    }
    if chain != [] && Offer(chain[0], slot).None? {
      InnermostOffered(chain[1..], slot);
      if Innermost(chain, slot).Some? {
        var j :| 0 <= j < |chain[1..]| && Offer(chain[1..][j], slot) == Innermost(chain, slot);
        assert Offer(chain[j + 1], slot) == Innermost(chain, slot);
      }
    }
  }

  /** The innermost offering node decides the slot, whatever its ancestors offer. */
  lemma {:induction false} FirstOfferWins(chain: seq<Node>, slot: Command, j: nat)
    requires j < |chain|
    requires Offer(chain[j], slot).Some?
    requires forall i | 0 <= i < j :: Offer(chain[i], slot).None?
    ensures Innermost(chain, slot) == Offer(chain[j], slot)
    decreases j
  {
    if j > 0 {
      assert Offer(chain[0], slot).None?;
      FirstOfferWins(chain[1..], slot, j - 1);
    }
  }

  /** A slot stays `null` exactly when no node of the chain offers a value. */
  lemma {:induction false} InnermostEmpty(chain: seq<Node>, slot: Command)
    ensures Innermost(chain, slot).None? <==>
      forall j | 0 <= j < |chain| :: Offer(chain[j], slot).None?
    decreases |chain|
  {
    if chain != [] {
      InnermostEmpty(chain[1..], slot);
      if Offer(chain[0], slot).None? {
        assert forall j | 1 <= j < |chain| :: chain[j] == chain[1..][j - 1];
      }
    }
  }
}
