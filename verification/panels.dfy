/** The link and image panels of src/cazary.js: what their submit handlers pass
    to the editing command, and the preview that follows the address field. */
module Panels {
  import opened Wrappers
  import opened Text
  import opened Validators

  const MailtoScheme := "mailto:"

  /** The link panel's `onsubmit`: an e-mail address becomes a `mailto:` link,
      a web address is used as typed, and anything else is refused (the field
      gets the focus back and no command runs). */
  function LinkTarget(input: string): (r: Option<string>)
    ensures r.Some? <==> CheckEmail(input) || CheckURL(input)
  {
    if CheckEmail(input) then Some(MailtoScheme + input)
    else if CheckURL(input) then Some(input)
    else None
  }

  /** The image panel's `onsubmit`: only a web address is inserted. */
  function ImageSource(input: string): (r: Option<string>)
    ensures r.Some? <==> CheckURL(input)
  {
    if CheckURL(input) then Some(input) else None
  }

  /** Which branch the link panel took is visible in its result: the input is
      prefixed exactly when it is an e-mail address, and kept exactly when it
      is a web address. */
  lemma LinkTargetCases(input: string)
    ensures LinkTarget(input) == Some(MailtoScheme + input) <==> CheckEmail(input)
    ensures LinkTarget(input) == Some(input) <==> CheckURL(input)
  {
    EmailIsNotURL(input);
  }

  /** Every link the panel creates is a web address or a `mailto:` link to an
      address `checkEmail` accepts. */
  lemma LinkTargetValid(input: string)
    requires LinkTarget(input).Some?
    ensures var t := LinkTarget(input).value;
            CheckURL(t) || (StartsWith(t, MailtoScheme) && CheckEmail(t[|MailtoScheme|..]))
  {
    var t := LinkTarget(input).value;
    if CheckEmail(input) {
      assert t[..|MailtoScheme|] == MailtoScheme;
      assert t[|MailtoScheme|..] == input;
    }
  }

  /** On a web address both panels pass the same text to the command. */
  lemma LinkAndImageAgree(input: string)
    requires CheckURL(input)
    ensures LinkTarget(input) == ImageSource(input)
  {
    EmailIsNotURL(input);
  }

  /** What the `keydown`/`paste` handler keeps: the last value it saw (the
      `url_old` data item, absent at first), whether the preview fieldset is
      shown, and the address the preview element was last pointed at. */
  datatype Preview = Preview(seen: Option<string>, shown: bool, source: Option<string>)

  /** The delayed `onupdate` body for the field's current value: an unchanged
      value does nothing; otherwise the value is remembered and the preview is
      shown on it when it is a web address, hidden when it is not. */
  function Update(p: Preview, value: string): Preview {
    if p.seen == Some(value) then p
    else if CheckURL(value) then Preview(Some(value), true, Some(value))
    else Preview(Some(value), false, p.source)
  }

  /** The preview agrees with the last value seen: it is shown exactly when
      that value is a web address, and then shows that address. Before any
      value is seen (the fieldset as the style sheet leaves it) anything goes. */
  predicate Faithful(p: Preview) {
    p.seen.Some? ==> (p.shown <==> CheckURL(p.seen.value)) && (p.shown ==> p.source == p.seen)
  }

  /** Running the handler twice on the same value is the same as once. */
  lemma UpdateIdempotent(p: Preview, value: string)
    ensures Update(Update(p, value), value) == Update(p, value)
  {
  }

  /** The handler keeps the preview faithful to the field. */
  lemma UpdateFaithful(p: Preview, value: string)
    requires Faithful(p)
    ensures Faithful(Update(p, value))
  {
  }

  /** The handler run on a series of field values, oldest first. */
  function Updates(p: Preview, values: seq<string>): Preview
    decreases |values|
  {
    if values == [] then p else Update(Updates(p, values[..|values| - 1]), values[|values| - 1])
  }

  /** However the field was edited, once the handler has run on the latest
      value the preview is shown exactly when that value is a web address, and
      then shows that address. */
  lemma UpdatesFollowLast(p: Preview, values: seq<string>)
    requires Faithful(p)
    requires values != []
    ensures var q := Updates(p, values);
            q.seen == Some(values[|values| - 1]) &&
            (q.shown <==> CheckURL(values[|values| - 1])) &&
            (q.shown ==> q.source == q.seen)
  {
    UpdatesFaithful(p, values);
  }

  lemma {:induction false} UpdatesFaithful(p: Preview, values: seq<string>)
    requires Faithful(p)
    ensures Faithful(Updates(p, values))
    decreases |values|
  {
    if values != [] {
      UpdatesFaithful(p, values[..|values| - 1]);
      UpdateFaithful(Updates(p, values[..|values| - 1]), values[|values| - 1]);
    }
  }
}
